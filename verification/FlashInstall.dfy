/** The chunked firmware installer of lib-flashcodeinstall/src/flashcodeinstall.cpp over the polled
    flash driver of module Fmc: erase, write chunk by chunk, complete. */
module FlashInstall {

  import opened FlashBoard
  import opened Fmc
  import C = Completion
  import opened Machine

  // Where the firmware image goes; a sector boundary.
  const OFFSET_UIMAGE: nat := 0x8000

  datatype ChunkState = Start | Write

  /* ---- Rounding up to whole sectors, two ways ---- */

  function RoundByDivision(size: int): int {
    Wrap(size + SECTOR - 1) / SECTOR * SECTOR
  }

  // size + SECTOR - 1 with the low bits masked off.
  function RoundByMask(size: int): int {
    var x := Wrap(size + SECTOR - 1);
    x - x % SECTOR
  }

  /** Both roundings agree, and give the least whole number of sectors that holds the image unless
      the addition wraps around. */
  lemma RoundingsAgree(size: int)
    requires 0 <= size < UINT32
    ensures RoundByDivision(size) == RoundByMask(size)
    ensures RoundByMask(size) % SECTOR == 0
    ensures size <= RoundByMask(size) <==> size + SECTOR - 1 < UINT32
    ensures size + SECTOR - 1 < UINT32 ==> RoundByMask(size) < size + SECTOR
  {
  }

  // The mask itself, in the machine's arithmetic.
  lemma MaskIsRemainder(x: bv32)
    ensures x & !0xFFF == x - x % 4096
    ensures x & !0xFFF == x / 4096 * 4096
  {
  }

  /* ---- The chunks of a session ---- */

  // The bytes of the chunks from the i-th on.
  function Joined(chunks: seq<seq<Byte>>): (bytes: seq<Byte>)
    decreases |chunks|
  {
    if chunks == [] then [] else chunks[0] + Joined(chunks[1..])
  }

  // The chunks the driver can take: whole words, and not empty.
  predicate Programmable(chunk: seq<Byte>) {
    |chunk| != 0 && WholeWords(|chunk|)
  }

  predicate WholeWords(n: int) {
    n % WORD == 0
  }

  // The driver takes such a chunk if there is room for it, and no other.
  lemma TakenExactly(size: int, offset: int, chunk: seq<Byte>)
    ensures Acceptable(size, offset, |chunk|) <==> Programmable(chunk) && offset + |chunk| <= size
    ensures Programmable(chunk) ==> WholeWords(|chunk|)
    ensures Programmable(chunk) <==> |chunk| != 0 && |chunk| % 4 == 0
  {
  }

  lemma WordsAdded(a: int, b: int)
    requires WholeWords(a) && WholeWords(b)
    ensures WholeWords(a + b)
  {
  }

  predicate AllProgrammable(chunks: seq<seq<Byte>>) {
    forall i :: 0 <= i < |chunks| ==> Programmable(chunks[i])
  }

  // The contents of the buffers handed over.
  ghost function Contents(chunks: seq<array<Byte>>): (data: seq<seq<Byte>>)
    reads chunks
    ensures |data| == |chunks|
    ensures forall i :: 0 <= i < |chunks| ==> data[i] == chunks[i][..]
  {
    seq(|chunks|, i requires 0 <= i < |chunks| reads chunks => chunks[i][..])
  }

  lemma ProgrammableLengths(chunks: seq<array<Byte>>)
    ensures AllProgrammable(Contents(chunks))
       <==> forall i :: 0 <= i < |chunks| ==> chunks[i].Length != 0 && chunks[i].Length % 4 == 0
  {
    forall i | 0 <= i < |chunks|
      ensures Programmable(Contents(chunks)[i]) <==> chunks[i].Length != 0 && chunks[i].Length % 4 == 0
    {
    }
    hide Programmable;
  }

  lemma ProgrammableUpTo(chunks: seq<seq<Byte>>, n: nat)
    requires n <= |chunks|
    ensures AllProgrammable(chunks[..0])
    ensures n < |chunks| ==>
              AllProgrammable(chunks[..n + 1]) == (AllProgrammable(chunks[..n]) && Programmable(chunks[n]))
    ensures n < |chunks| && AllProgrammable(chunks) ==> Programmable(chunks[n])
  {
    if n < |chunks| {
      assert chunks[..n + 1] == chunks[..n] + [chunks[n]];
    }
  }

  lemma {:induction false} JoinedAppend(a: seq<seq<Byte>>, b: seq<seq<Byte>>)
    ensures Joined(a + b) == Joined(a) + Joined(b)
    decreases |a|
  {
    if a == [] {
      assert a + b == b;
    } else {
      assert (a + b)[1..] == a[1..] + b;
      JoinedAppend(a[1..], b);
    }
  }

  lemma JoinedSnoc(chunks: seq<seq<Byte>>, n: nat)
    requires n < |chunks|
    ensures Joined(chunks[..n + 1]) == Joined(chunks[..n]) + chunks[n]
  {
    assert chunks[..n + 1] == chunks[..n] + [chunks[n]];
    assert Joined([chunks[n]]) == chunks[n];
    JoinedAppend(chunks[..n], [chunks[n]]);
  }

  lemma JoinedPrefix(chunks: seq<seq<Byte>>, n: nat)
    requires n <= |chunks|
    ensures |Joined(chunks[..n])| <= |Joined(chunks)|
  {
    assert chunks == chunks[..n] + chunks[n..];
    JoinedAppend(chunks[..n], chunks[n..]);
  }

  // What a chunk leaves in erased flash: itself, or nothing if the driver refuses it.
  function Kept(chunk: seq<Byte>): (bytes: seq<Byte>)
    ensures |bytes| == |chunk|
  {
    if Programmable(chunk) then chunk else Blank(|chunk|)
  }

  function AllKept(chunks: seq<seq<Byte>>): (data: seq<seq<Byte>>)
    ensures |data| == |chunks|
    ensures forall i :: 0 <= i < |data| ==> data[i] == Kept(chunks[i])
  {
    seq(|chunks|, i requires 0 <= i < |chunks| => Kept(chunks[i]))
  }

  // A chunk that is in the flash whether the driver takes it or not.
  ghost predicate Harmless(chunk: seq<Byte>) {
    Programmable(chunk) || AllErased(chunk)
  }

  lemma JoinedNothing(chunks: seq<seq<Byte>>)
    ensures Joined(chunks[..0]) == [] && Joined(AllKept(chunks[..0])) == []
  {
  }

  lemma KeptSnoc(chunks: seq<seq<Byte>>, n: nat)
    requires n < |chunks|
    ensures Joined(AllKept(chunks[..n + 1])) == Joined(AllKept(chunks[..n])) + Kept(chunks[n])
    ensures |Joined(AllKept(chunks[..n]))| == |Joined(chunks[..n])|
  {
    hide Kept;
    JoinedKept(chunks[..n]);
    var all := AllKept(chunks);
    assert AllKept(chunks[..n + 1]) == all[..n + 1] && AllKept(chunks[..n]) == all[..n];
    JoinedSnoc(all, n);
  }

  lemma SumWraps(a: int, b: int)
    requires 0 <= a < UINT32 && 0 <= b < UINT32
    ensures Wrap(a + b) == if a + b < UINT32 then a + b else a + b - UINT32
  {
  }

  lemma KeptIs(chunk: seq<Byte>)
    ensures Kept(chunk) == if Programmable(chunk) then chunk else Blank(|chunk|)
  {
  }

  lemma KeptExactly(chunk: seq<Byte>)
    ensures Kept(chunk) == chunk <==> Harmless(chunk)
  {
    if AllErased(chunk) {
      assert chunk == Blank(|chunk|);
    }
  }

  lemma {:induction false} JoinedKept(chunks: seq<seq<Byte>>)
    ensures |Joined(AllKept(chunks))| == |Joined(chunks)|
    ensures Joined(AllKept(chunks)) == Joined(chunks) <==> forall i :: 0 <= i < |chunks| ==> Harmless(chunks[i])
    decreases |chunks|
  {
    hide Kept, Harmless;
    if chunks != [] {
      var rest := chunks[1..];
      JoinedKept(rest);
      KeptExactly(chunks[0]);
      assert AllKept(chunks)[1..] == AllKept(rest);
      SplitEqual(Kept(chunks[0]), chunks[0], Joined(AllKept(rest)), Joined(rest));
      assert (forall i :: 0 <= i < |chunks| ==> Harmless(chunks[i]))
          == (Harmless(chunks[0]) && forall i :: 0 <= i < |rest| ==> Harmless(rest[i])) by {
        assert forall i :: 0 <= i < |rest| ==> rest[i] == chunks[i + 1];
        assert forall i :: 0 < i < |chunks| ==> chunks[i] == rest[i - 1];
      }
    }
  }

  lemma SplitEqual(a: seq<Byte>, b: seq<Byte>, c: seq<Byte>, d: seq<Byte>)
    requires |a| == |b|
    ensures a + c == b + d <==> a == b && c == d
  {
    assert (a + c)[..|a|] == a && (b + d)[..|a|] == b;
    assert (a + c)[|a|..] == c && (b + d)[|a|..] == d;
  }

  lemma SplitErased(flash: seq<Byte>, lo: int, mid: int, hi: int)
    requires 0 <= lo <= mid <= hi <= |flash| && AllErased(flash[lo..hi])
    ensures AllErased(flash[lo..mid]) && AllErased(flash[mid..hi])
  {
    assert flash[lo..mid] == flash[lo..hi][..mid - lo];
    assert flash[mid..hi] == flash[lo..hi][mid - lo..];
  }

  // An image at a base, and erased bytes from there to an end.
  ghost predicate Holds(flash: seq<Byte>, image: seq<Byte>, base: int, end: int) {
    && 0 <= base && base + |image| <= end <= |flash|
    && flash[base..base + |image|] == image && AllErased(flash[base + |image|..end])
  }

  // Writing a chunk right behind an image extends it and leaves the erased rest.
  lemma Extended(before: seq<Byte>, after: seq<Byte>, image: seq<Byte>, chunk: seq<Byte>, base: int, end: int)
    requires Holds(before, image, base, end) && base + |image| + |chunk| <= end
    requires SameOutside(after, before, base + |image|, base + |image| + |chunk|)
    requires after[base + |image|..base + |image| + |chunk|] == chunk
    ensures Holds(after, image + chunk, base, end)
    ensures SameOutside(after, before, base, end)
  {
    var mid := base + |image|;
    var stop := mid + |chunk|;
    SplitErased(before, mid, stop, end);
    assert after[base..mid] == before[base..mid];
    assert after[base..stop] == after[base..mid] + after[mid..stop];
    assert after[stop..end] == before[stop..end];
  }

  // So does writing nothing, with erased bytes for a chunk.
  lemma ExtendedBlank(flash: seq<Byte>, image: seq<Byte>, n: nat, base: int, end: int)
    requires Holds(flash, image, base, end) && base + |image| + n <= end
    ensures Holds(flash, image + Blank(n), base, end)
  {
    var mid := base + |image|;
    SplitErased(flash, mid, mid + n, end);
    assert flash[mid..mid + n] == Blank(n);
    Unchanged(flash, mid, mid + n);
    hide AllErased;
    Extended(flash, flash, image, Blank(n), base, end);
  }

  // Where a region ends that does not go on from one bank to the other, an operation over it ends.
  lemma LimitReached(b: Board, d: Device, from: int, to: int)
    ensures !Reaches(b.boundary, from, to) ==> Limit(b, d, from, to) == to
  {
  }

  lemma PartReached(b: Board, d: Device, from: int, to: int, start: int, n: nat)
    requires from <= start && start + n <= to
    ensures !Reaches(b.boundary, from, to) ==> Limit(b, d, start, start + n) == start + n
  {
  }

  lemma LimitWithin(b: Board, d: Device, from: int, to: int)
    requires from <= to
    ensures from <= Limit(b, d, from, to) <= to
  {
  }

  lemma ChunkStored(before: seq<Byte>, after: seq<Byte>, image: seq<Byte>, chunk: seq<Byte>, base: int, end: int,
                    ok: bool)
    requires Holds(before, image, base, end) && base + |image| + |chunk| <= end && ok == Programmable(chunk)
    requires ok ==> SameOutside(after, before, base + |image|, base + |image| + |chunk|)
                    && after[base + |image|..base + |image| + |chunk|] == chunk
    requires !ok ==> after == before
    ensures Holds(after, image + Kept(chunk), base, end)
    ensures SameOutside(after, before, base, end)
  {
    hide AllErased;
    if ok {
      Extended(before, after, image, chunk, base, end);
    } else {
      ExtendedBlank(before, image, |chunk|, base, end);
    }
  }

  // The bytes of [from, to) that are not in [lo, hi) are erased.
  ghost predicate ErasedBesides(image: seq<Byte>, from: int, to: int, lo: int, hi: int) {
    forall i :: from <= i < to && 0 <= i < |image| && !(lo <= i < hi) ==> image[i] == ERASED
  }

  lemma ErasedExactly(before: seq<Byte>, after: seq<Byte>, from: int, to: int, lo: int, hi: int)
    requires SameOutside(after, before, lo, hi) && 0 <= lo <= hi <= |after| && AllErased(after[lo..hi])
    requires 0 <= from <= to <= |after|
    ensures AllErased(after[from..to]) <==> ErasedBesides(before, from, to, lo, hi)
  {
    assert forall i :: lo <= i < hi ==> after[i] == after[lo..hi][i - lo] == ERASED;
    assert forall i :: from <= i < to ==> after[i] == after[from..to][i - from];
  }

  lemma HoldsNothing(flash: seq<Byte>, base: int, end: int)
    requires 0 <= base <= end <= |flash|
    ensures Holds(flash, [], base, end) <==> AllErased(flash[base..end])
  {
  }

  // The bytes for the next chunk are erased, and none of its words lies across both banks.
  lemma ChunkReady(flash: seq<Byte>, image: seq<Byte>, end: int, n: nat, boundary: int)
    requires Holds(flash, image, OFFSET_UIMAGE, end) && OFFSET_UIMAGE + |image| + n <= end
    requires WholeWords(|image|) || !Reaches(boundary, OFFSET_UIMAGE, end)
    ensures var start := OFFSET_UIMAGE + |image|;
            start + n <= |flash| && AllErased(flash[start..start + n]) && NoStraddle(boundary, start, start + n)
  {
    SplitErased(flash, OFFSET_UIMAGE + |image|, OFFSET_UIMAGE + |image| + n, end);
  }

  lemma SameChainIf(a: seq<Byte>, b: seq<Byte>, c: seq<Byte>, lo: int, hi: int)
    ensures SameOutside(a, b, lo, hi) && SameOutside(b, c, lo, hi) ==> SameOutside(a, c, lo, hi)
  {
  }

  lemma DriverSize(device: Controller)
    requires device.Valid()
    ensures |device.flash| == device.board.size
  {
    SizeKept(device.board, device.View());
  }

  class Installer {
    const device: Controller
    var eraseSize: int
    var firmwareSize: int
    var writeCount: int
    var chunkState: ChunkState

    // What the chunks counted so far leave in erased flash.
    ghost var image: seq<Byte>

    ghost predicate Valid()
      reads this, device
    {
      && device.Valid() && OFFSET_UIMAGE <= device.board.size < UINT32 && device.board.size % SECTOR == 0
      && 0 <= writeCount < UINT32 && 0 <= firmwareSize < UINT32
    }

    // A session is clean while the flash holds that from the image offset on, then erased bytes, and the driver is
    // idle with both banks free. Another client of the driver may end that at any time.
    ghost predicate Clean()
      requires device.Valid()
      reads this, device
    {
      && device.state.Idle? && device.AtRest() && chunkState == Write
      && writeCount == |image| <= firmwareSize <= eraseSize
      && (WholeWords(writeCount) || !ReachesOver(eraseSize))
      && Holds(device.flash, image, OFFSET_UIMAGE, OFFSET_UIMAGE + eraseSize)
    }

    // The image's sectors reach to the end of the first bank or over it.
    predicate ReachesOver(total: int)
      reads device
    {
      Reaches(device.board.boundary, OFFSET_UIMAGE, OFFSET_UIMAGE + total)
    }

    // No erase but one of the image's sectors is under way, and no command outside them.
    ghost predicate Free(total: int)
      reads device
    {
      device.EraseReady(OFFSET_UIMAGE, total)
    }

    constructor (device: Controller)
      requires device.Valid() && OFFSET_UIMAGE <= device.board.size < UINT32 && device.board.size % SECTOR == 0
      ensures Valid() && this.device == device && chunkState == Start && !Clean()
    {
      this.device := device;
      eraseSize, firmwareSize, writeCount, chunkState := 0, 0, 0, Start;
      image := [];
    }

    // Where an erase that is polled now takes place: where the one under way was begun, if there is one.
    ghost function EraseFrom(): int
      reads this, device
    {
      if Erasing(device.View()) then device.from else OFFSET_UIMAGE
    }

    ghost function EraseEnd(total: int): int
      reads this, device
    {
      if Erasing(device.View()) then device.to else OFFSET_UIMAGE + total
    }

    // ... and how far it gets.
    ghost function EraseTo(total: int): int
      reads this, device
    {
      Limit(device.board, device.View(), EraseFrom(), EraseEnd(total))
    }

    // The next bytes are all in banks that are unlocked, or will be.
    ghost predicate Opens(n: int)
      reads this, device
    {
      var start := OFFSET_UIMAGE + writeCount;
      Limit(device.board, device.View(), start, start + n) == start + n
    }

    // Polls an erase at the image offset to its end.
    method PollErase(total: nat)
      requires Valid() && total % SECTOR == 0 && OFFSET_UIMAGE + total <= device.board.size
      modifies device
      ensures device.Valid() && device.state.Idle?
      ensures var lo, hi, end := old(EraseFrom()), old(EraseTo(total)), old(EraseEnd(total));
              && 0 <= lo <= hi <= end <= device.board.size
              && AllErased(device.Settled()[lo..hi]) && SameOutside(device.Settled(), old(device.Settled()), lo, hi)
              && (old(Within(device.View(), lo, end)) ==>
                    SameOutside(device.flash, old(device.flash), lo, end)
                    && (!Reaches(device.board.boundary, lo, end) ==> device.AtRest()))
    {
      hide AllErased, SameOutside, Within, Sound, EraseStep, EraseAt, Target, Reaches, Quiet, Limit;
      ghost var lo, hi, end := EraseFrom(), EraseTo(total), EraseEnd(total);
      if Erasing(device.View()) {
        EraseAtSound(device.board, device.View(), lo, end);
      }
      LimitWithin(device.board, device.View(), lo, end);
      Unchanged(device.Settled(), lo, hi);
      Unchanged(device.flash, lo, end);
      var done := false;
      while !done
        invariant device.Valid()
        invariant !done ==> EraseFrom() == lo && EraseTo(total) == hi && EraseEnd(total) == end
        invariant 0 <= lo <= hi <= end <= device.board.size
        invariant SameOutside(device.Settled(), old(device.Settled()), lo, hi)
        invariant done ==> device.state.Idle? && AllErased(device.Settled()[lo..hi])
        invariant old(Within(device.View(), lo, end)) ==>
                    Within(device.View(), lo, end) && SameOutside(device.flash, old(device.flash), lo, end)
        invariant old(Within(device.View(), lo, end)) && done && !Reaches(device.board.boundary, lo, end) ==>
                    device.AtRest()
        decreases if done then 0 else 1, EraseRank(device.board, device.View()), Waiting(device.board, device.View())
      {
        ghost var settled, flash := device.Settled(), device.flash;
        done := device.Erase(OFFSET_UIMAGE, total);
        SameChain(device.Settled(), settled, old(device.Settled()), lo, hi);
        if old(Within(device.View(), lo, end)) {
          SameChain(device.flash, flash, old(device.flash), lo, end);
        }
      }
    }

    /** Starts a session; the result is always true. The image's sectors are then erased exactly if every byte
        of them was before, or lies in the region the driver has erased: the image's own, or, if it was at another
        erase, that one's, as far as the bank it begins in. (A bank still at a command makes no promise.) The
        session is clean exactly if they are, with both banks free and the size not wrapped around. */
    method Erase(size: int) returns (ok: bool)
      requires Valid() && 0 <= size < UINT32
      requires OFFSET_UIMAGE + RoundByDivision(size) <= device.board.size
      modifies this, device
      ensures Valid() && ok && device.state.Idle?
      ensures firmwareSize == size && writeCount == 0 && chunkState == Write && image == []
      ensures eraseSize == RoundByDivision(size)
      ensures var from, to := OFFSET_UIMAGE, OFFSET_UIMAGE + eraseSize;
              var lo, hi := old(EraseFrom()), old(EraseTo(RoundByDivision(size)));
              var end := old(EraseEnd(RoundByDivision(size)));
              && (device.AtRest() ==>
                    (AllErased(device.flash[from..to]) <==> ErasedBesides(old(device.Settled()), from, to, lo, hi)))
              && SameOutside(device.Settled(), old(device.Settled()), lo, hi)
              && (old(Within(device.View(), lo, end)) ==> SameOutside(device.flash, old(device.flash), lo, end))
              && Clean() == (device.AtRest() && size + SECTOR - 1 < UINT32 && AllErased(device.flash[from..to]))
      ensures var lo, end := old(EraseFrom()), old(EraseEnd(RoundByDivision(size)));
              old(Within(device.View(), lo, end)) && !Reaches(device.board.boundary, lo, end) ==> device.AtRest()
      ensures old(Free(RoundByDivision(size))) && size + SECTOR - 1 < UINT32 && !ReachesOver(eraseSize) ==> Clean()
    {
      hide AllErased, SameOutside, Within, Holds, ErasedBesides, Target, Sound, Limit;
      RoundingsAgree(size);
      image := [];
      firmwareSize := size;
      writeCount := 0;
      eraseSize := RoundByDivision(size);
      ghost var settled, lo, hi := device.Settled(), EraseFrom(), EraseTo(eraseSize);
      LimitReached(device.board, device.View(), lo, EraseEnd(eraseSize));
      NothingWithin(device.View(), lo, EraseEnd(eraseSize));
      PollErase(eraseSize);
      ErasedExactly(settled, device.Settled(), OFFSET_UIMAGE, OFFSET_UIMAGE + eraseSize, lo, hi);
      if device.AtRest() {
        QuietTarget(device.board, device.View());
      }
      chunkState := Write;
      SizeKept(device.board, device.View());
      HoldsNothing(device.flash, OFFSET_UIMAGE, OFFSET_UIMAGE + eraseSize);
      return true;
    }

    // Polls a write until its end; if the driver is at a write already, that is the end of that one, and success.
    method PollOn(offset: nat, buffer: array<Byte>) returns (ok: bool)
      requires Valid()
      modifies device
      ensures device.Valid() && device.state.Idle? && (old(Writing(device.View())) ==> ok)
      ensures old(device.Going()) ==>
                var lo, hi, other := old(device.from), old(device.to), old(device.source);
                device.WriteDone(lo, other, hi - lo, true) && SameOutside(device.flash, old(device.flash), lo, hi)
    {
      hide AllErased, SameOutside, Within, Holds, Target, Sound, WriteStep, WriteAt, WriteGoing, EraseAt, Acceptable,
           NoStraddle, Quiet, Limit, WriteRank, Waiting;
      hide Controller.Valid, Controller.WriteReady, Controller.Going;
      ghost var writing, going := Writing(device.View()), device.Going();
      ghost var lo, hi, other := device.from, device.to, device.source;
      if going {
        GoingIs(device);
      }
      Unchanged(device.flash, lo, hi);
      var done := false;
      ok := true;
      while !done
        invariant device.Valid() && (done ==> device.state.Idle?) && (writing ==> ok)
        invariant writing && !done ==> Writing(device.View())
        invariant going ==> 0 <= lo <= hi <= device.board.size && other != null && hi - lo <= other.Length
        invariant going && !done ==> device.Going() && device.from == lo && device.to == hi && device.source == other
        invariant going && done ==> device.WriteDone(lo, other, hi - lo, true)
        invariant going ==> SameOutside(device.flash, old(device.flash), lo, hi)
        decreases if done then 0 else 1, WriteRank(device.board, device.View()), Waiting(device.board, device.View())
      {
        ghost var flash := device.flash;
        done, ok := device.Write(offset, buffer, buffer.Length);
        if going {
          SameChain(device.flash, flash, old(device.flash), lo, hi);
        }
      }
    }

    // The same from the first poll on.
    method PollWrite(offset: nat, buffer: array<Byte>) returns (ok: bool)
      requires Valid()
      modifies device
      ensures device.Valid() && device.state.Idle?
      ensures old(device.state.Idle?) ==> ok == Acceptable(device.board.size, offset, buffer.Length)
      ensures old(device.state.Idle? && device.AtRest()) && !Acceptable(device.board.size, offset, buffer.Length) ==>
                device.AtRest() && device.flash == old(device.flash)
      ensures old(device.state.Idle?) && Acceptable(device.board.size, offset, buffer.Length)
              && old(offset + buffer.Length <= device.board.size
                  && device.WriteReady(offset, buffer, buffer.Length)) ==>
                && device.WriteDone(offset, buffer, buffer.Length, true)
                && SameOutside(device.flash, old(device.flash), offset, offset + buffer.Length)
      ensures old(Writing(device.View())) ==> ok
      ensures old(device.Going()) ==>
                var lo, hi, other := old(device.from), old(device.to), old(device.source);
                device.WriteDone(lo, other, hi - lo, true) && SameOutside(device.flash, old(device.flash), lo, hi)
    {
      hide AllErased, SameOutside, Within, Holds, Target, Sound, WriteStep, WriteAt, WriteGoing, EraseAt, Acceptable,
           NoStraddle, Quiet, Limit, WriteRank, Waiting;
      hide Controller.Valid, Controller.WriteReady, Controller.Going, Controller.WriteDone;
      if device.Going() {
        GoingIs(device);
      }
      var done, result := device.Write(offset, buffer, buffer.Length);
      if !done && device.Going() {
        GoingIs(device);
      }
      ok := result;
      ghost var lo, hi, flash := device.from, device.to, device.flash;
      if !done {
        ok := PollOn(offset, buffer);
        SameChainIf(device.flash, flash, old(device.flash), lo, hi);
      }
    }

    // What the driver does with a chunk.
    method StoreChunk(chunk: array<Byte>) returns (ok: bool)
      requires Valid() && chunk.Length < UINT32
      modifies device
      ensures Valid()
      ensures old(device.state.Idle?) ==>
                device.state.Idle? && ok == Acceptable(device.board.size, OFFSET_UIMAGE + writeCount, chunk.Length)
      ensures old(Writing(device.View())) ==> ok
      ensures old(device.Going()) ==>
                var lo, hi, other := old(device.from), old(device.to), old(device.source);
                && device.AtRest() && 0 <= lo <= hi <= |device.flash| && hi - lo <= other.Length
                && device.flash[lo..hi] == other[..hi - lo]
                && SameOutside(device.flash, old(device.flash), lo, hi)
      ensures old(Clean()) && writeCount + chunk.Length <= firmwareSize ==>
                && ok == Programmable(chunk[..]) && (!ok ==> device.flash == old(device.flash))
                && (!ReachesOver(eraseSize) || (ok && old(Opens(chunk.Length))) ==>
                      var end := OFFSET_UIMAGE + eraseSize;
                      && device.AtRest() && Holds(device.flash, image + Kept(chunk[..]), OFFSET_UIMAGE, end)
                      && SameOutside(device.flash, old(device.flash), OFFSET_UIMAGE, end))
    {
      hide AllErased, SameOutside, Holds, Target, Sound, Within, WriteGoing, WriteAt, EraseAt, Reaches, NoStraddle,
           Quiet, Wrap, Kept, Acceptable, Programmable, WholeWords, Limit;
      hide Controller.Valid, Controller.Going;
      ghost var start, before := OFFSET_UIMAGE + writeCount, device.flash;
      ghost var fits := Clean() && writeCount + chunk.Length <= firmwareSize;
      ghost var over, opens := ReachesOver(eraseSize), Opens(chunk.Length);
      DriverSize(device);
      if fits {
        ChunkReady(device.flash, image, OFFSET_UIMAGE + eraseSize, chunk.Length, device.board.boundary);
        PartReached(device.board, device.View(), OFFSET_UIMAGE, OFFSET_UIMAGE + eraseSize, start, chunk.Length);
      }
      TakenExactly(device.board.size, start, chunk[..]);
      if device.Going() {
        GoingIs(device);
      }
      ok := PollWrite(OFFSET_UIMAGE + writeCount, chunk);
      DriverSize(device);
      assert chunk[..chunk.Length] == chunk[..];
      if fits && (!over || (ok && opens)) {
        ChunkStored(before, device.flash, image, chunk[..], OFFSET_UIMAGE, OFFSET_UIMAGE + eraseSize, ok);
      }
    }

    /** Writes the next chunk of a session. A chunk that is too long changes nothing; one that the driver
        refuses is counted as written all the same. So is one that finds the driver at another client's write: the
        answer is true, and if that write goes well nothing outside its region has changed. */
    method WriteChunk(chunk: array<Byte>, written: int) returns (ok: bool, written': int)
      requires Valid() && chunk.Length < UINT32
      modifies this, device
      ensures Valid() && firmwareSize == old(firmwareSize) && eraseSize == old(eraseSize)
              && chunkState == old(chunkState)
      ensures old(device.state.Idle?) ==> device.state.Idle?
      ensures var tooLong := Wrap(old(writeCount) + chunk.Length) > firmwareSize;
              && writeCount == (if tooLong then old(writeCount) else Wrap(old(writeCount) + chunk.Length))
              && written' == (if tooLong then written else writeCount)
              && image == (if tooLong then old(image) else old(image) + Kept(chunk[..]))
              && (tooLong ==> !ok && device.View() == old(device.View()) && Clean() == old(Clean()))
              && (!tooLong && old(device.state.Idle?) ==>
                    ok == Acceptable(device.board.size, OFFSET_UIMAGE + old(writeCount), chunk.Length))
              && (!tooLong && old(Writing(device.View())) ==> ok)
              && (!tooLong && old(device.Going()) ==>
                    var lo, hi, other := old(device.from), old(device.to), old(device.source);
                    && device.AtRest() && 0 <= lo <= hi <= |device.flash| && hi - lo <= other.Length
                    && device.flash[lo..hi] == other[..hi - lo]
                    && SameOutside(device.flash, old(device.flash), lo, hi))
      ensures old(Clean()) ==> ok == (old(writeCount) + chunk.Length <= firmwareSize && Programmable(chunk[..]))
      ensures old(Clean()) && old(writeCount) + chunk.Length <= firmwareSize ==>
                && (!ReachesOver(eraseSize) || (ok && old(Opens(chunk.Length))) ==>
                      Clean() && SameOutside(device.flash, old(device.flash), OFFSET_UIMAGE, OFFSET_UIMAGE + eraseSize))
                && (!ok ==> device.flash == old(device.flash))
    {
      hide AllErased, SameOutside, Holds, Target, Sound, Within, WriteGoing, WriteAt, EraseAt, Reaches, NoStraddle,
           Quiet, Wrap, Kept, Acceptable, Programmable, WholeWords, Limit;
      hide Controller.Valid, Controller.Going;
      SumWraps(writeCount, chunk.Length);
      if Wrap(writeCount + chunk.Length) > firmwareSize {
        return false, written;
      }
      TakenExactly(device.board.size, OFFSET_UIMAGE + writeCount, chunk[..]);
      if WholeWords(writeCount) && Programmable(chunk[..]) {
        WordsAdded(writeCount, chunk.Length);
      }
      ok := StoreChunk(chunk);
      image := image + Kept(chunk[..]);
      writeCount := Wrap(writeCount + chunk.Length);
      return ok, writeCount;
    }

    /** Ends a session: true exactly when a session was on and as many bytes were counted as announced. */
    method WriteChunkComplete() returns (ok: bool, count: int)
      requires Valid()
      modifies this
      ensures Valid() && chunkState == Start && writeCount == 0 && !Clean()
      ensures count == old(writeCount) && firmwareSize == old(firmwareSize)
      ensures ok == (old(chunkState) == Write && old(writeCount) == firmwareSize)
      ensures ok && old(Clean()) ==>
                |old(image)| == firmwareSize && OFFSET_UIMAGE + firmwareSize <= device.board.size
                && device.flash[OFFSET_UIMAGE..OFFSET_UIMAGE + firmwareSize] == old(image)
    {
      count := writeCount;
      var state := chunkState;
      writeCount := 0;
      chunkState := Start;
      if state != Write {
        return false, count;
      }
      if firmwareSize != count {
        return false, count;
      }
      return true, count;
    }

    /** A whole session, given up at the first call that fails: it succeeds exactly when the chunks are whole words
        and add up to the announced size. If the driver was free and the image does not reach to the end of the
        first bank, the flash then holds their concatenation, and what it held before everywhere else. */
    method Install(size: int, chunks: seq<array<Byte>>) returns (ok: bool)
      requires Valid() && 0 <= size && size + SECTOR - 1 < UINT32
      requires OFFSET_UIMAGE + RoundByDivision(size) <= device.board.size
      requires forall i :: 0 <= i < |chunks| ==> chunks[i].Length < UINT32
      modifies this, device
      ensures Valid()
      ensures ok == ((forall i :: 0 <= i < |chunks| ==> chunks[i].Length != 0 && chunks[i].Length % 4 == 0)
                     && |Joined(Contents(chunks))| == size)
      ensures ok && old(Free(RoundByDivision(size))) && !ReachesOver(RoundByDivision(size)) ==>
                && device.flash[0x8000..0x8000 + size] == Joined(Contents(chunks))
                && SameOutside(device.flash, old(device.flash), OFFSET_UIMAGE, OFFSET_UIMAGE + RoundByDivision(size))
    {
      hide AllProgrammable, Holds, SameOutside, AllErased, ErasedBesides, Within, Target, Sound, Joined, RoundByMask;
      hide Limit, EraseAt, WriteAt, Wrap, Controller.Going, Controller.WriteReady;
      RoundingsAgree(size);
      ghost var data, before, free := Contents(chunks), device.flash, Free(RoundByDivision(size));
      ProgrammableLengths(chunks);
      NothingWithin(device.View(), OFFSET_UIMAGE, OFFSET_UIMAGE + RoundByDivision(size));
      ok := Erase(size);
      assert Contents(chunks) == data;
      ghost var erased := device.flash;
      ok := WriteAll(size, chunks);
      SizeKept(device.board, device.View());
      if ok && free && !ReachesOver(eraseSize) {
        SameChain(device.flash, erased, before, OFFSET_UIMAGE, OFFSET_UIMAGE + eraseSize);
      }
      if !ok {
        return;
      }
      var complete, count := WriteChunkComplete();
      assert Contents(chunks) == data;
      return complete;
    }

    // One of the chunks of a session in which none has been refused.
    method WriteNext(chunk: array<Byte>, written: int) returns (ok: bool, written': int)
      requires Valid() && device.state.Idle? && chunk.Length < UINT32
      requires writeCount <= firmwareSize && OFFSET_UIMAGE + firmwareSize <= device.board.size
      modifies this, device
      ensures Valid() && device.state.Idle?
      ensures firmwareSize == old(firmwareSize) && eraseSize == old(eraseSize) && chunkState == old(chunkState)
      ensures ok == (old(writeCount) + chunk.Length <= firmwareSize && Programmable(chunk[..]))
      ensures ok ==> writeCount == old(writeCount) + chunk.Length && image == old(image) + chunk[..]
      ensures ok && old(Clean()) && !ReachesOver(eraseSize) ==>
                Clean() && SameOutside(device.flash, old(device.flash), OFFSET_UIMAGE, OFFSET_UIMAGE + eraseSize)
    {
      hide Holds, SameOutside, Kept, Programmable, Target, Sound, Within, AllErased, Reaches, Wrap, Acceptable;
      hide Controller.Valid, Controller.Going, Installer.Clean, EraseAt, WriteAt, Limit;
      KeptIs(chunk[..]);
      SumWraps(writeCount, chunk.Length);
      TakenExactly(device.board.size, OFFSET_UIMAGE + writeCount, chunk[..]);
      ok, written' := WriteChunk(chunk, written);
    }

    // The chunks of a session, one after the other, until one is refused.
    method WriteAll(size: int, chunks: seq<array<Byte>>) returns (ok: bool)
      requires Valid() && device.state.Idle? && chunkState == Write && firmwareSize == size
      requires writeCount == 0 && image == [] && size <= eraseSize && OFFSET_UIMAGE + eraseSize <= device.board.size
      requires forall i :: 0 <= i < |chunks| ==> chunks[i].Length < UINT32
      modifies this, device
      ensures Valid() && firmwareSize == size && chunkState == Write && eraseSize == old(eraseSize)
      ensures var data := Contents(chunks);
              && data == old(Contents(chunks))
              && ok == (AllProgrammable(data) && |Joined(data)| <= size)
              && (ok ==> writeCount == |Joined(data)| && image == Joined(data))
      ensures ok && old(Clean()) && !ReachesOver(eraseSize) ==>
                Clean() && SameOutside(device.flash, old(device.flash), OFFSET_UIMAGE, OFFSET_UIMAGE + eraseSize)
    {
      hide Holds, SameOutside, Kept, Joined, AllProgrammable, Programmable, Target, Sound, Within, AllErased, Reaches;
      hide Controller.Valid, Controller.Going, Installer.Clean, Acceptable, EraseAt, WriteAt, Limit, Wrap;
      ghost var data, flash := Contents(chunks), device.flash;
      ghost var keeps, end := Clean() && !ReachesOver(eraseSize), OFFSET_UIMAGE + eraseSize;
      JoinedNothing(data);
      ProgrammableUpTo(data, 0);
      Unchanged(device.flash, OFFSET_UIMAGE, end);
      var written := 0;
      var i := 0;
      while i < |chunks|
        invariant 0 <= i <= |chunks| && Valid() && firmwareSize == size && eraseSize == old(eraseSize)
        invariant chunkState == Write && device.state.Idle? && Contents(chunks) == data
        invariant writeCount == |Joined(data[..i])| && AllProgrammable(data[..i])
        invariant writeCount <= size && image == Joined(data[..i])
        invariant keeps ==> Clean() && SameOutside(device.flash, flash, OFFSET_UIMAGE, end)
      {
        JoinedSnoc(data, i);
        JoinedPrefix(data, i + 1);
        ProgrammableUpTo(data, i);
        ghost var before := device.flash;
        var accepted;
        accepted, written := WriteNext(chunks[i], written);
        if !accepted {
          return false;
        }
        SameChainIf(device.flash, before, flash, OFFSET_UIMAGE, end);
        i := i + 1;
      }
      assert data[..|chunks|] == data;
      return true;
    }

    // One of the chunks of a session that does not look at the answers.
    method WriteAnyway(chunk: array<Byte>, written: int) returns (written': int)
      requires Valid() && chunk.Length < UINT32
      modifies this, device
      ensures Valid()
      ensures firmwareSize == old(firmwareSize) && eraseSize == old(eraseSize) && chunkState == old(chunkState)
      ensures old(writeCount) + chunk.Length <= firmwareSize ==>
                && writeCount == old(writeCount) + chunk.Length && image == old(image) + Kept(chunk[..])
                && (old(Clean()) && !ReachesOver(eraseSize) ==> Clean())
    {
      hide Holds, SameOutside, Kept, Programmable, Target, Sound, Within, AllErased, Reaches, Wrap, Acceptable;
      hide Controller.Valid, Controller.Going, Installer.Clean, EraseAt, WriteAt, Limit;
      SumWraps(writeCount, chunk.Length);
      var ok;
      ok, written' := WriteChunk(chunk, written);
    }

    /** A whole session that ignores what the single calls answer: it completes whenever the chunks add up to the
        announced size. When it completes, with a driver that was free and an image that does not reach to the end of
        the first bank, the flash holds them exactly if they add up to that size and every chunk that is not whole
        words, or is empty, has nothing in it but erased bytes. */
    method InstallAnyway(size: int, chunks: seq<array<Byte>>) returns (ok: bool)
      requires Valid() && 0 <= size && size + SECTOR - 1 < UINT32
      requires OFFSET_UIMAGE + RoundByDivision(size) <= device.board.size
      requires forall i :: 0 <= i < |chunks| ==> chunks[i].Length < UINT32
      modifies this, device
      ensures Valid()
      ensures |Joined(Contents(chunks))| == size ==> ok
      ensures ok && old(Free(RoundByDivision(size))) && !ReachesOver(RoundByDivision(size)) ==>
                (device.flash[OFFSET_UIMAGE..OFFSET_UIMAGE + size] == Joined(Contents(chunks))
                 <==> |Joined(Contents(chunks))| == size
                      && forall i :: 0 <= i < |chunks| ==> Harmless(Contents(chunks)[i]))
    {
      hide Holds, SameOutside, AllErased, ErasedBesides, Within, Target, Sound, Kept, Harmless, Joined, AllKept;
      hide Reaches, Acceptable, Programmable, Limit, EraseAt, WriteAt;
      hide Controller.Valid, Controller.Going, Installer.Clean;
      RoundingsAgree(size);
      ghost var data := Contents(chunks);
      ghost var well := Free(RoundByDivision(size)) && !ReachesOver(RoundByDivision(size));
      JoinedNothing(data);
      var started := Erase(size);
      assert Contents(chunks) == data;
      var written, i := 0, 0;
      while i < |chunks|
        invariant 0 <= i <= |chunks| && Valid() && firmwareSize == size && chunkState == Write
        invariant eraseSize == RoundByDivision(size) && Contents(chunks) == data
        invariant |Joined(data[..i])| <= size ==>
                    writeCount == |Joined(data[..i])| && image == Joined(AllKept(data[..i])) && (well ==> Clean())
      {
        JoinedSnoc(data, i);
        KeptSnoc(data, i);
        written := WriteAnyway(chunks[i], written);
        i := i + 1;
      }
      assert data[..|chunks|] == data;
      JoinedKept(data);
      DriverSize(device);
      var complete, count := WriteChunkComplete();
      assert Contents(chunks) == data;
      return complete;
    }

    /** The one-shot form. */
    method WriteFirmware(firmware: array<Byte>) returns (ok: bool)
      requires Valid() && 0 < firmware.Length && firmware.Length + SECTOR - 1 < UINT32
      requires OFFSET_UIMAGE + firmware.Length < UINT32
      modifies this, device
      ensures Valid()
      ensures ok == (0x8000 + firmware.Length <= device.board.size && firmware.Length % 4 == 0)
      ensures ok && old(Free(RoundByMask(firmware.Length))) && !ReachesOver(RoundByMask(firmware.Length)) ==>
                && device.flash[0x8000..0x8000 + firmware.Length] == firmware[..]
                && SameOutside(device.flash, old(device.flash), OFFSET_UIMAGE,
                    OFFSET_UIMAGE + RoundByMask(firmware.Length))
      ensures OFFSET_UIMAGE + firmware.Length > device.board.size ==> device.flash == old(device.flash)
    {
      hide Holds, SameOutside, AllErased, Target, Sound, Within, EraseAt, WriteAt, WriteGoing, Limit, RoundByDivision;
      var size := firmware.Length;
      if Wrap(OFFSET_UIMAGE + size) > device.board.size {
        return false;
      }
      RoundingsAgree(size);
      var total := RoundByMask(size);
      ghost var free, before := Free(total), device.flash;
      NothingWithin(device.View(), OFFSET_UIMAGE, OFFSET_UIMAGE + total);
      LimitReached(device.board, device.View(), EraseFrom(), EraseEnd(total));
      PollErase(total);
      SizeKept(device.board, device.View());
      ghost var erased := device.flash;
      if device.AtRest() {
        QuietTarget(device.board, device.View());
      }
      if free && !ReachesOver(total) {
        SplitErased(device.flash, OFFSET_UIMAGE, OFFSET_UIMAGE + size, OFFSET_UIMAGE + total);
        PartReached(device.board, device.View(), OFFSET_UIMAGE, OFFSET_UIMAGE + total, OFFSET_UIMAGE, size);
      }
      ok := PollWrite(OFFSET_UIMAGE, firmware);
      assert firmware[..firmware.Length] == firmware[..];
      if ok && free && !ReachesOver(total) {
        SizeKept(device.board, device.View());
        Wider(device.flash, erased, OFFSET_UIMAGE, OFFSET_UIMAGE + size, OFFSET_UIMAGE + total);
        SameChain(device.flash, erased, before, OFFSET_UIMAGE, OFFSET_UIMAGE + total);
      }
    }
  }

  /* ---- Whether the flash holds the image, for every timing ---- */

  // The driver takes the chunks one after the other from an offset on.
  predicate Taken(size: int, chunks: seq<seq<Byte>>, offset: nat) {
    chunks == []
    || (Acceptable(size, offset, |chunks[0]|) && Taken(size, chunks[1..], offset + |chunks[0]|))
  }

  // The device when each of them has been polled to its end.
  ghost function ChunksWritten(b: Board, d: Device, chunks: seq<seq<Byte>>, offset: nat): Device
    requires Sound(b, d) && !Writing(d) && Taken(b.size, chunks, offset)
    decreases |chunks|
  {
    if chunks == [] then d
    else
      C.WriteFromEnds(b, d, chunks[0], offset);
      ChunksWritten(b, C.WriteFrom(b, d, chunks[0], offset), chunks[1..], offset + |chunks[0]|)
  }

  // Over erased flash in a free bank they end up behind what is there from a base on.
  lemma {:induction false} ChunksStored(b: Board, d: Device, chunks: seq<seq<Byte>>, base: nat, offset: nat, end: nat)
    requires Sound(b, d) && !Writing(d) && Taken(b.size, chunks, offset)
    requires base <= offset && offset + |Joined(chunks)| <= end <= b.size == |d.flash|
    requires FreeOver(b, d, base, end) && !(base < b.boundary < end) && AllErased(d.flash[offset..end])
    ensures var after := ChunksWritten(b, d, chunks, offset);
            |after.flash| == b.size
            && after.flash[base..offset + |Joined(chunks)|] == d.flash[base..offset] + Joined(chunks)
    decreases |chunks|
  {
    hide C.WriteFrom, C.Stores, AllErased, FreeOver, Sound, Target, SameOutside, Acceptable;
    if chunks != [] {
      var stop := offset + |chunks[0]|;
      C.WriteFromEnds(b, d, chunks[0], offset);
      ChunkStep(b, d, chunks[0], base, offset, end);
      var after := C.WriteFrom(b, d, chunks[0], offset);
      ChunksStored(b, after, chunks[1..], base, stop, end);
      assert d.flash[base..offset] + (chunks[0] + Joined(chunks[1..]))
          == (d.flash[base..offset] + chunks[0]) + Joined(chunks[1..]);
    } else {
      assert d.flash[base..offset] + [] == d.flash[base..offset];
    }
  }

  lemma ChunkStep(b: Board, d: Device, chunk: seq<Byte>, base: nat, offset: nat, end: nat)
    requires Sound(b, d) && !Writing(d) && Acceptable(b.size, offset, |chunk|)
    requires base <= offset && offset + |chunk| <= end <= b.size == |d.flash|
    requires FreeOver(b, d, base, end) && !(base < b.boundary < end) && AllErased(d.flash[offset..end])
    ensures var after := C.WriteFrom(b, d, chunk, offset);
            var stop := offset + |chunk|;
            && Sound(b, after) && |after.flash| == b.size && FreeOver(b, after, base, end)
            && AllErased(after.flash[stop..end]) && after.flash[base..stop] == d.flash[base..offset] + chunk
  {
    hide C.WriteFrom, AllErased, Sound, Target, SameOutside;
    var stop := offset + |chunk|;
    SplitErased(d.flash, offset, stop, end);
    C.WriteFromEnds(b, d, chunk, offset);
    C.WritableStores(b, d, chunk, offset);
    var after := C.WriteFrom(b, d, chunk, offset);
    SameBank(b, after, base, offset, stop, end);
    RegionTarget(b, d, base, end, base, offset);
    RegionTarget(b, d, base, end, stop, end);
    RegionTarget(b, after, base, end, base, offset);
    RegionTarget(b, after, base, end, stop, end);
    SamePart(Target(b, after), Target(b, d), offset, stop, base, offset);
    SamePart(Target(b, after), Target(b, d), offset, stop, stop, end);
    assert after.flash[base..stop] == after.flash[base..offset] + after.flash[offset..stop];
  }

  // A region in one bank is free if any part of it is.
  lemma SameBank(b: Board, d: Device, base: int, from: int, to: int, end: int)
    requires base <= from < to <= end && !(base < b.boundary < end) && FreeOver(b, d, from, to)
    ensures FreeOver(b, d, base, end)
  {
  }

  // A byte lost in front of the chunks stays lost.
  lemma {:induction false} ChunksBehind(b: Board, d: Device, chunks: seq<seq<Byte>>, offset: nat, at: int, y: Byte)
    requires Sound(b, d) && !Writing(d) && Taken(b.size, chunks, offset) && C.Lost(b, d, at, y) && at < offset
    ensures C.Lost(b, ChunksWritten(b, d, chunks, offset), at, y)
    decreases |chunks|
  {
    hide C.WriteFrom, C.Lost, Sound, Acceptable;
    if chunks != [] {
      C.WriteFromEnds(b, d, chunks[0], offset);
      C.WriteFromBehind(b, d, chunks[0], offset, at, y);
      ChunksBehind(b, C.WriteFrom(b, d, chunks[0], offset), chunks[1..], offset + |chunks[0]|, at, y);
    }
  }

  predicate OfLengths(chunks: seq<seq<Byte>>, lengths: seq<nat>) {
    |chunks| == |lengths| && forall i :: 0 <= i < |chunks| ==> |chunks[i]| == lengths[i]
  }

  function Sum(lengths: seq<nat>): nat {
    if lengths == [] then 0 else lengths[0] + Sum(lengths[1..])
  }

  lemma {:induction false} JoinedLength(chunks: seq<seq<Byte>>, lengths: seq<nat>)
    requires OfLengths(chunks, lengths)
    ensures |Joined(chunks)| == Sum(lengths)
    decreases |chunks|
  {
    if chunks != [] {
      JoinedLength(chunks[1..], lengths[1..]);
    }
  }

  // Whole words, and none empty.
  predicate WordLengths(lengths: seq<nat>) {
    forall i :: 0 <= i < |lengths| ==> lengths[i] != 0 && WholeWords(lengths[i])
  }

  lemma {:induction false} AllTaken(size: int, chunks: seq<seq<Byte>>, lengths: seq<nat>, offset: nat)
    requires OfLengths(chunks, lengths) && WordLengths(lengths) && offset + Sum(lengths) <= size
    ensures Taken(size, chunks, offset)
    decreases |chunks|
  {
    if chunks != [] {
      assert lengths[0] != 0 && WholeWords(lengths[0]);
      AllTaken(size, chunks[1..], lengths[1..], offset + |chunks[0]|);
    }
  }

  // Chunks erased for and written one after the other are in the flash when the driver says so.
  ghost predicate Installs(b: Board, d: Device, chunks: seq<seq<Byte>>, total: nat)
    requires Sound(b, d) && !Erasing(d) && C.WholeSectors(b, OFFSET_UIMAGE, total)
    requires Taken(b.size, chunks, OFFSET_UIMAGE) && |Joined(chunks)| <= total
  {
    var erased := C.EraseFrom(b, d, OFFSET_UIMAGE, total);
    && Sound(b, erased) && !Writing(erased)
    && var after := ChunksWritten(b, erased, chunks, OFFSET_UIMAGE);
       && |after.flash| == b.size
       && after.flash[OFFSET_UIMAGE..OFFSET_UIMAGE + |Joined(chunks)|] == Joined(chunks)
  }

  lemma EnoughInstalls(b: Board, d: Device, chunks: seq<seq<Byte>>, total: nat)
    requires Sound(b, d) && !Erasing(d) && C.WholeSectors(b, OFFSET_UIMAGE, total)
    requires Taken(b.size, chunks, OFFSET_UIMAGE) && |Joined(chunks)| <= total
    requires !Reaches(b.boundary, OFFSET_UIMAGE, OFFSET_UIMAGE + total)
    ensures Installs(b, d, chunks, total)
  {
    hide C.EraseFrom, ChunksWritten, AllErased, Sound;
    C.BeginsComplete(b, d, OFFSET_UIMAGE, total);
    var erased := C.EraseFrom(b, d, OFFSET_UIMAGE, total);
    ChunksStored(b, erased, chunks, OFFSET_UIMAGE, OFFSET_UIMAGE, OFFSET_UIMAGE + total);
    assert erased.flash[OFFSET_UIMAGE..OFFSET_UIMAGE] + Joined(chunks) == Joined(chunks);
  }

  lemma TooSoonLost(size: nat, boundary: nat, chunks: seq<seq<Byte>>, total: nat, open0: bool, open1: bool)
    requires boundary % SECTOR == 0 && total % SECTOR == 0 && OFFSET_UIMAGE + total <= size < UINT32
    requires chunks != [] && chunks[0] != [] && chunks[0][0] != ERASED
    requires Taken(size, chunks, OFFSET_UIMAGE) && |Joined(chunks)| <= total
    requires Reaches(boundary, OFFSET_UIMAGE, OFFSET_UIMAGE + total)
    ensures var b, d := C.SlowBoard(size, boundary, OFFSET_UIMAGE), C.Zeros(size, open0, open1);
            && b.size == size && b.boundary == boundary && Sound(b, d) && !Erasing(d)
            && C.WholeSectors(b, OFFSET_UIMAGE, total) && !Installs(b, d, chunks, total)
  {
    hide C.EraseFrom, C.WriteFrom, AllErased, C.Fails, Sound, C.Lost;
    C.BeginsTooSoon(size, boundary, OFFSET_UIMAGE, total, open0, open1);
    var b, d := C.SlowBoard(size, boundary, OFFSET_UIMAGE), C.Zeros(size, open0, open1);
    var erased := C.EraseFrom(b, d, OFFSET_UIMAGE, total);
    var chunk, y := chunks[0], chunks[0][0];
    C.OwnBankBusy(b, erased, OFFSET_UIMAGE, |chunk|, y);
    C.FailsLost(b, erased, chunk, OFFSET_UIMAGE, OFFSET_UIMAGE, y, 0);
    C.WriteFromEnds(b, erased, chunk, OFFSET_UIMAGE);
    var first := C.WriteFrom(b, erased, chunk, OFFSET_UIMAGE);
    ChunksBehind(b, first, chunks[1..], OFFSET_UIMAGE + |chunk|, OFFSET_UIMAGE, y);
    var after := ChunksWritten(b, erased, chunks, OFFSET_UIMAGE);
    C.LostByte(b, after, OFFSET_UIMAGE, y);
    FirstDiffers(after.flash, chunks, b.size);
  }

  lemma FirstDiffers(flash: seq<Byte>, chunks: seq<seq<Byte>>, size: nat)
    requires chunks != [] && chunks[0] != [] && OFFSET_UIMAGE + |Joined(chunks)| <= size
    requires OFFSET_UIMAGE < |flash| && flash[OFFSET_UIMAGE] != chunks[0][0]
    ensures |flash| == size ==> flash[OFFSET_UIMAGE..OFFSET_UIMAGE + |Joined(chunks)|] != Joined(chunks)
  {
    assert Joined(chunks)[0] == chunks[0][0];
    assert |flash| == size ==> flash[OFFSET_UIMAGE..OFFSET_UIMAGE + |Joined(chunks)|][0] == flash[OFFSET_UIMAGE];
  }

  /** Erased for and written in chunks of whole words, from any state of the driver but an erase under way, an image is
      in the flash when the driver says so, whatever the flash held, for all contents and all timings, exactly if its
      sectors do not reach from the first bank to that bank's end: in however many chunks it comes. */
  lemma InstallExact(size: nat, boundary: nat, lengths: seq<nat>, open0: bool, open1: bool)
    requires boundary % SECTOR == 0 && lengths != [] && WordLengths(lengths) && Sum(lengths) + SECTOR - 1 < UINT32
    requires OFFSET_UIMAGE + RoundByDivision(Sum(lengths)) <= size < UINT32
    ensures Sum(lengths) <= RoundByDivision(Sum(lengths)) && RoundByDivision(Sum(lengths)) % SECTOR == 0
    ensures (forall b: Board, d: Device, chunks: seq<seq<Byte>> ::
               b.size == size && b.boundary == boundary && Sound(b, d) && !Erasing(d) && OfLengths(chunks, lengths)
               && d.open0 == open0 && d.open1 == open1 ==>
                 && Taken(size, chunks, OFFSET_UIMAGE) && |Joined(chunks)| == Sum(lengths)
                 && Installs(b, d, chunks, RoundByDivision(Sum(lengths))))
            <==> !Reaches(boundary, OFFSET_UIMAGE, OFFSET_UIMAGE + RoundByDivision(Sum(lengths)))
  {
    RoundingsAgree(Sum(lengths));
    hide Installs, RoundByDivision, RoundByMask, OfLengths, WordLengths, Taken, Sum, Joined;
    var total := RoundByDivision(Sum(lengths));
    if Reaches(boundary, OFFSET_UIMAGE, OFFSET_UIMAGE + total) {
      var chunks := Zeroed(lengths);
      AllTaken(size, chunks, lengths, OFFSET_UIMAGE);
      JoinedLength(chunks, lengths);
      ZeroedFirst(lengths);
      TooSoonLost(size, boundary, chunks, total, open0, open1);
      assert !Installs(C.SlowBoard(size, boundary, OFFSET_UIMAGE), C.Zeros(size, open0, open1), chunks, total);
    } else {
      forall b: Board, d: Device, chunks: seq<seq<Byte>>
        | b.size == size && b.boundary == boundary && Sound(b, d) && !Erasing(d) && OfLengths(chunks, lengths)
          && d.open0 == open0 && d.open1 == open1
        ensures Taken(size, chunks, OFFSET_UIMAGE) && |Joined(chunks)| == Sum(lengths)
        ensures Installs(b, d, chunks, total)
      {
        AllTaken(size, chunks, lengths, OFFSET_UIMAGE);
        JoinedLength(chunks, lengths);
        EnoughInstalls(b, d, chunks, total);
      }
    }
  }

  function Zeroed(lengths: seq<nat>): (chunks: seq<seq<Byte>>)
    ensures OfLengths(chunks, lengths)
  {
    seq(|lengths|, i requires 0 <= i < |lengths| => seq(lengths[i], _ => 0))
  }

  lemma ZeroedFirst(lengths: seq<nat>)
    requires lengths != [] && WordLengths(lengths)
    ensures Zeroed(lengths) != [] && Zeroed(lengths)[0] != [] && Zeroed(lengths)[0][0] != ERASED
  {
    assert lengths[0] != 0;
  }

  /* ---- Sessions that succeed with the wrong flash ---- */

  /** While the driver is at an erase of the last sector, the installer's Erase says that the image's sectors are
      erased, and has not touched them. */
  method ErasedElsewhere(board: Board, size: int) returns (installer: Installer, ok: bool)
    requires board.boundary % SECTOR == 0 && board.size % SECTOR == 0 && board.size < UINT32
    requires 0 < size && size + SECTOR - 1 < UINT32 && OFFSET_UIMAGE + RoundByDivision(size) + SECTOR <= board.size
    ensures ok && OFFSET_UIMAGE + size <= |installer.device.flash|
    ensures forall i :: OFFSET_UIMAGE <= i < OFFSET_UIMAGE + size ==> installer.device.flash[i] == 0
  {
    hide Target, Sound, EraseStep, AllErased, Holds;
    RoundingsAgree(size);
    var device := new Controller(board, seq(board.size, _ => 0));
    var done := device.Erase(board.size - SECTOR, SECTOR);
    installer := new Installer(device);
    ok := installer.Erase(size);
  }

  /** A chunk of six bytes is refused, the session completes all the same, and the flash is as erased. */
  method RefusedAndComplete(installer: Installer, chunk: array<Byte>) returns (accepted: bool, complete: bool)
    requires installer.Valid() && installer.Free(SECTOR) && OFFSET_UIMAGE + SECTOR <= installer.device.board.size
    requires !installer.ReachesOver(SECTOR) && chunk.Length == 6
    modifies installer, installer.device
    ensures !accepted && complete && OFFSET_UIMAGE + 6 <= |installer.device.flash|
    ensures installer.device.flash[OFFSET_UIMAGE..OFFSET_UIMAGE + 6] == Blank(6)
  {
    hide Target, Sound, AllErased, Holds, ErasedBesides, SameOutside;
    var started := installer.Erase(6);
    var written;
    accepted, written := installer.WriteChunk(chunk, 0);
    var count;
    complete, count := installer.WriteChunkComplete();
    SizeKept(installer.device.board, installer.device.View());
  }

  /** A chunk that comes while the driver is at another client's write, say the store's, of a region apart from the
      image's: it is taken and counted, and what the flash has in the image's sectors is what it had before. */
  method ChunkWhileWriting(installer: Installer, chunk: array<Byte>, at: nat, other: array<Byte>) returns (ok: bool)
    requires installer.Valid() && installer.Clean() && chunk.Length < UINT32
    requires installer.writeCount + chunk.Length <= installer.firmwareSize
    requires Acceptable(installer.device.board.size, at, other.Length)
    requires at + other.Length <= installer.device.board.size && installer.device.WriteReady(at, other, other.Length)
    requires at + other.Length <= OFFSET_UIMAGE || OFFSET_UIMAGE + installer.eraseSize <= at
    modifies installer, installer.device
    ensures ok && installer.writeCount == old(installer.writeCount) + chunk.Length
    ensures var flash, end := installer.device.flash, OFFSET_UIMAGE + old(installer.eraseSize);
            && |flash| == |old(installer.device.flash)| >= end && at + other.Length <= |flash|
            && flash[OFFSET_UIMAGE..end] == old(installer.device.flash)[OFFSET_UIMAGE..end]
            && flash[at..at + other.Length] == other[..]
  {
    hide Target, Sound, AllErased, SameOutside, WriteStep, Acceptable, WriteGoing, WriteAt, EraseAt, Wrap, Limit;
    hide Controller.Valid, Controller.Going;
    var device := installer.device;
    ghost var flash, end := device.flash, OFFSET_UIMAGE + installer.eraseSize;
    DriverReady(device, at, other.Length);
    SumWraps(installer.writeCount, chunk.Length);
    var done, taken := device.Write(at, other, other.Length);
    ghost var before := device.flash;
    var written;
    ok, written := installer.WriteChunk(chunk, installer.writeCount);
    SameChainIf(device.flash, before, flash, at, at + other.Length);
    SamePart(device.flash, flash, at, at + other.Length, OFFSET_UIMAGE, end);
    assert other[..other.Length] == other[..];
  }

  // An idle driver does not end a write with the poll that begins it.
  lemma DriverReady(device: Controller, offset: nat, total: nat)
    requires device.Valid() && device.state.Idle? && Acceptable(device.board.size, offset, total)
    ensures Sound(device.board, device.View()) && !WriteStep(device.board, device.View(), [], offset, total).1
  {
    C.ReadyIs(device.board, device.View(), offset, total);
  }

  lemma SamePart(a: seq<Byte>, b: seq<Byte>, lo: int, hi: int, from: int, to: int)
    requires SameOutside(a, b, lo, hi) && (hi <= from || to <= lo) && 0 <= from <= to <= |b|
    ensures |a| == |b| && a[from..to] == b[from..to]
  {
  }
}
