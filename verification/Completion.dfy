/** When an operation of the flash driver that says it is done is done. */
module Completion {

  import opened FlashBoard
  import opened Fmc
  import opened Machine

  /* ---- Erases ---- */

  // Polls until the erase under way says it is done.
  ghost function EraseAll(b: Board, d: Device, from: int, to: int): Device
    requires EraseAt(b, d, from, to)
    decreases EraseRank(b, d), Waiting(b, d)
  {
    EraseAdvances(b, d, from, to, from, to - from);
    EraseNearer(b, d, from, to, from, to - from);
    var (d', done) := EraseStep(b, d, from, to - from);
    if done then d' else EraseAll(b, d', from, to)
  }

  lemma {:induction false} EraseEnds(b: Board, d: Device, from: int, to: int)
    requires EraseAt(b, d, from, to)
    ensures Sound(b, EraseAll(b, d, from, to)) && EraseAll(b, d, from, to).state == Idle
    decreases EraseRank(b, d), Waiting(b, d)
  {
    EraseAdvances(b, d, from, to, from, to - from);
    EraseNearer(b, d, from, to, from, to - from);
    var (d', done) := EraseStep(b, d, from, to - from);
    hide EraseStep, EraseAt, Sound;
    if !done {
      EraseEnds(b, d', from, to);
    }
  }

  lemma DoneFree(b: Board, d: Device, from: int, to: int)
    requires !Busy(b, d, to) && from <= to && !Reaches(b.boundary, from, to)
    ensures FreeOver(b, d, from, to)
  {
  }

  /** Whatever the hardware was at and however long that and the commands of the erase take, the region is erased
      when the driver says so, and the banks it lies in are free, unless it reaches from the first bank to its end. */
  lemma {:induction false} EraseComplete(b: Board, d: Device, from: int, to: int)
    requires EraseAt(b, d, from, to) && !Reaches(b.boundary, from, to)
    ensures var after := EraseAll(b, d, from, to);
            && Sound(b, after) && after.state == Idle && 0 <= from <= to <= |after.flash| == b.size
            && AllErased(after.flash[from..to]) && FreeOver(b, after, from, to)
    decreases EraseRank(b, d), Waiting(b, d)
  {
    EraseAdvances(b, d, from, to, from, to - from);
    EraseNearer(b, d, from, to, from, to - from);
    var (d', done) := EraseStep(b, d, from, to - from);
    hide EraseStep, EraseAt, AllErased, Target, Sound;
    if done {
      SizeKept(b, d');
      DoneFree(b, d', from, to);
      RegionTarget(b, d', from, to, from, to);
    } else {
      EraseComplete(b, d', from, to);
    }
  }

  // A board on which the last page of the first bank takes long.
  function SlowBoard(size: nat, boundary: nat, from: int): Board {
    Board(size, boundary, n => if BANK0_PAGE * (n + 1) == boundary - from then 4 * size + 8 else 0, (n, i) => ERASED)
  }

  // The last byte of the first bank has not been erased.
  ghost predicate LastKept(b: Board, d: Device) {
    0 < b.boundary <= |d.flash| && d.flash[b.boundary - 1] != ERASED
  }

  // On that board, before the last page of the first bank has been asked for, and after.
  ghost predicate BeforeLast(b: Board, d: Device, from: int) {
    && b == SlowBoard(b.size, b.boundary, from) && LastKept(b, d)
    && d.address < b.boundary && d.bank1.Nothing? && d.open0 && d.address - from == BANK0_PAGE * d.issued
    && (d.bank0.Pending? ==> d.bank0.remaining == 0 && d.bank0.at + |d.bank0.bytes| <= d.address)
  }

  ghost predicate BehindLast(b: Board, d: Device, from: int) {
    && b == SlowBoard(b.size, b.boundary, from) && LastKept(b, d)
    && d.address >= b.boundary && d.bank0.Pending? && d.bank0.remaining >= EraseRank(b, d) + 4
    && b.boundary - from < BANK0_PAGE * (d.issued + 1)
    && (d.bank1.Pending? ==> d.bank1.remaining == 0)
  }

  lemma BeforeLastStep(b: Board, d: Device, from: int, to: int)
    requires EraseAt(b, d, from, to) && BeforeLast(b, d, from) && Reaches(b.boundary, from, to)
    requires from % BANK0_PAGE == 0
    ensures var (d', done) := EraseStep(b, d, from, to - from);
            !done && (BeforeLast(b, d', from) || BehindLast(b, d', from))
  {
    hide Target, AllErased, Landed, ErasedPage;
    if d.bank0.Pending? {
      LandedKept(d.flash, d.bank0, b.boundary - 1);
    }
    if d.state == EraseProgram {
      NextPage(d.address, to, b.boundary);
    }
  }

  lemma BehindLastStep(b: Board, d: Device, from: int, to: int)
    requires EraseAt(b, d, from, to) && BehindLast(b, d, from)
    ensures var (d', done) := EraseStep(b, d, from, to - from);
            if done then LastKept(b, d') && d'.bank0.Pending? && d'.bank0.remaining > 2 else BehindLast(b, d', from)
  {
    hide Target, AllErased, Landed;
    if d.bank1.Pending? {
      LandedKept(d.flash, d.bank1, b.boundary - 1);
    }
    if d.state == EraseProgram {
      NextPage(d.address, to, b.boundary);
    }
  }

  /** For every region that does there is a timing for which the driver says too soon that it is done. */
  lemma {:induction false} EraseTooSoon(b: Board, d: Device, from: int, to: int)
    requires EraseAt(b, d, from, to) && Reaches(b.boundary, from, to) && from % BANK0_PAGE == 0
    requires BeforeLast(b, d, from) || BehindLast(b, d, from)
    ensures var after := EraseAll(b, d, from, to);
            && Sound(b, after) && after.state == Idle && 0 <= from <= to <= |after.flash| == b.size
            && !AllErased(after.flash[from..to]) && after.bank0.Pending? && after.bank0.remaining > 2
    decreases EraseRank(b, d), Waiting(b, d)
  {
    hide EraseStep, EraseAt, BeforeLast, BehindLast, Target, Sound;
    EraseAtSound(b, d, from, to);
    EraseAdvances(b, d, from, to, from, to - from);
    EraseNearer(b, d, from, to, from, to - from);
    if BeforeLast(b, d, from) {
      BeforeLastStep(b, d, from, to);
    } else {
      BehindLastStep(b, d, from, to);
    }
    var (d', done) := EraseStep(b, d, from, to - from);
    if done {
      SizeKept(b, d');
      NotAllErased(d'.flash, from, to, b.boundary - 1);
    } else {
      EraseTooSoon(b, d', from, to);
    }
  }

  lemma NotAllErased(image: seq<Byte>, from: int, to: int, at: int)
    requires 0 <= from <= at < to <= |image| && image[at] != ERASED
    ensures !AllErased(image[from..to])
  {
    assert image[from..to][at - from] != ERASED;
  }

  // The driver once a write is given up, if one is under way.
  function Given(b: Board, d: Device, offset: nat, total: nat): Device
    requires Sound(b, d)
  {
    if Writing(d) then EraseStep(b, d, offset, total).0 else d
  }

  lemma GivenIs(b: Board, d: Device, offset: nat, total: nat)
    requires Sound(b, d) && !Erasing(d) && WholeSectors(b, offset, total)
    ensures Sound(b, Given(b, d, offset, total)) && Given(b, d, offset, total).state == Idle
  {
    EraseBegins(b, d, offset, total);
  }

  predicate WholeSectors(b: Board, offset: nat, total: nat) {
    offset % SECTOR == 0 && total % SECTOR == 0 && offset + total <= b.size
  }

  // ... and once the erase has begun.
  function Begun(b: Board, d: Device, offset: nat, total: nat): Device
    requires Sound(b, d) && !Erasing(d) && WholeSectors(b, offset, total)
  {
    GivenIs(b, d, offset, total);
    EraseStep(b, Given(b, d, offset, total), offset, total).0
  }

  lemma BegunAt(b: Board, d: Device, offset: nat, total: nat)
    requires Sound(b, d) && !Erasing(d) && WholeSectors(b, offset, total)
    ensures EraseAt(b, Begun(b, d, offset, total), offset, offset + total)
  {
    hide EraseStep, EraseAt;
    GivenIs(b, d, offset, total);
    EraseBegins(b, Given(b, d, offset, total), offset, total);
  }

  // Polls of an erase until it says it is done, whatever the driver and the hardware were at. (An erase under way
  // would go on over its own region.)
  ghost function EraseFrom(b: Board, d: Device, offset: nat, total: nat): Device
    requires Sound(b, d) && !Erasing(d) && WholeSectors(b, offset, total)
  {
    BegunAt(b, d, offset, total);
    EraseAll(b, Begun(b, d, offset, total), offset, offset + total)
  }

  ghost predicate Erases(b: Board, d: Device, offset: nat, total: nat)
    requires Sound(b, d) && !Erasing(d) && WholeSectors(b, offset, total)
  {
    var after := EraseFrom(b, d, offset, total);
    |after.flash| == b.size && AllErased(after.flash[offset..offset + total])
  }

  lemma BeginsComplete(b: Board, d: Device, offset: nat, total: nat)
    requires Sound(b, d) && !Erasing(d) && WholeSectors(b, offset, total)
    requires !Reaches(b.boundary, offset, offset + total)
    ensures var after := EraseFrom(b, d, offset, total);
            && Sound(b, after) && after.state == Idle && |after.flash| == b.size
            && AllErased(after.flash[offset..offset + total]) && FreeOver(b, after, offset, offset + total)
  {
    hide EraseAll, EraseAt, AllErased, Begun;
    BegunAt(b, d, offset, total);
    EraseComplete(b, Begun(b, d, offset, total), offset, offset + total);
  }

  lemma PageMultiple(offset: int)
    requires offset % SECTOR == 0
    ensures offset % BANK0_PAGE == 0
  {
    assert offset == BANK0_PAGE * (2 * (offset / SECTOR));
  }

  // A device at rest that holds nothing but zeros, with either bank unlocked or not.
  function Zeros(size: nat, open0: bool, open1: bool): (d: Device)
    ensures |d.flash| == size
  {
    Device(Idle, 0, 0, seq(size, _ => 0), Nothing, Nothing, open0, open1, 0)
  }

  lemma BeginsBeforeLast(size: nat, boundary: nat, offset: nat, total: nat, open0: bool, open1: bool)
    requires Reaches(boundary, offset, offset + total) && offset + total <= size < UINT32 && boundary % SECTOR == 0
    requires offset % SECTOR == 0 && total % SECTOR == 0
    ensures var b, d := SlowBoard(size, boundary, offset), Zeros(size, open0, open1);
            Sound(b, d) && BeforeLast(b, Begun(b, d, offset, total), offset)
  {
  }

  lemma BeginsTooSoon(size: nat, boundary: nat, offset: nat, total: nat, open0: bool, open1: bool)
    requires Reaches(boundary, offset, offset + total) && offset + total <= size < UINT32 && boundary % SECTOR == 0
    requires offset % SECTOR == 0 && total % SECTOR == 0
    ensures var b, d := SlowBoard(size, boundary, offset), Zeros(size, open0, open1);
            && Sound(b, d) && WholeSectors(b, offset, total)
            && var after := EraseFrom(b, d, offset, total);
               && Sound(b, after) && after.state == Idle && |after.flash| == size
               && !AllErased(after.flash[offset..offset + total])
               && after.bank0.Pending? && after.bank0.remaining > 2
  {
    hide EraseAll, EraseAt, AllErased, BeforeLast, BehindLast, Begun;
    var b, d := SlowBoard(size, boundary, offset), Zeros(size, open0, open1);
    BeginsBeforeLast(size, boundary, offset, total, open0, open1);
    BegunAt(b, d, offset, total);
    PageMultiple(offset);
    EraseTooSoon(b, Begun(b, d, offset, total), offset, offset + total);
  }

  /** Polled until it says it is done, an erase is done, whatever the flash held, whatever the banks were at and
      however long the commands take, exactly if its region does not reach from the first bank to that bank's end;
      which of the banks are unlocked makes no difference. */
  lemma EraseExact(size: nat, boundary: nat, offset: nat, total: nat, open0: bool, open1: bool)
    requires boundary % SECTOR == 0 && offset % SECTOR == 0 && total % SECTOR == 0 && offset + total <= size < UINT32
    ensures (forall b: Board, d: Device ::
               b.size == size && b.boundary == boundary && Sound(b, d) && !Erasing(d)
               && d.open0 == open0 && d.open1 == open1 ==>
                 Erases(b, d, offset, total)) <==> !Reaches(boundary, offset, offset + total)
  {
    hide EraseFrom, AllErased;
    if Reaches(boundary, offset, offset + total) {
      BeginsTooSoon(size, boundary, offset, total, open0, open1);
      assert !Erases(SlowBoard(size, boundary, offset), Zeros(size, open0, open1), offset, total);
    } else {
      forall b: Board, d: Device
        | b.size == size && b.boundary == boundary && Sound(b, d) && !Erasing(d) && d.open0 == open0 && d.open1 == open1
        ensures Erases(b, d, offset, total)
      {
        BeginsComplete(b, d, offset, total);
      }
    }
  }

  /* ---- Writes ---- */

  function WordOf(d: Device, data: seq<Byte>, next: int): (word: seq<Byte>)
    requires d.state == WriteProgram ==> 0 <= next && next + WORD <= |data|
    ensures d.state == WriteProgram ==> |word| == WORD
  {
    if d.state == WriteProgram then data[next..next + WORD] else []
  }

  // Polls until the write under way says it is done.
  ghost function WriteAll(b: Board, d: Device, data: seq<Byte>, from: int, to: int, next: int): Device
    requires WriteAt(b, d, from, to, next) && to - from <= |data|
    decreases WriteRank(b, d), Waiting(b, d)
  {
    WriteAtFacts(b, d, from, to, next);
    WriteMoves(b, d, WordOf(d, data, next), from, to, next, from, to - from);
    var (d', done, ok) := WriteStep(b, d, WordOf(d, data, next), from, to - from);
    if done then d' else WriteAll(b, d', data, from, to, NextWord(d, next))
  }

  lemma {:induction false} WriteComplete(b: Board, d: Device, data: seq<Byte>, from: int, to: int, next: int)
    requires WriteAt(b, d, from, to, next) && to - from <= |data| && WriteGoing(b, d, data, from, to, next)
    ensures var after := WriteAll(b, d, data, from, to, next);
            && |after.flash| == b.size && 0 <= from <= to <= b.size && after.flash[from..to] == data[..to - from]
            && Sound(b, after) && FreeOver(b, after, from, to)
            && SameOutside(Target(b, after), Target(b, d), from, to)
    decreases WriteRank(b, d), Waiting(b, d)
  {
    hide WriteStep, WriteAt, WriteGoing, SameOutside, Target, FreeOver;
    WriteAtFacts(b, d, from, to, next);
    WriteMoves(b, d, WordOf(d, data, next), from, to, next, from, to - from);
    WriteAdvances(b, d, data, from, to, next, from, to - from);
    var (d', done, ok) := WriteStep(b, d, WordOf(d, data, next), from, to - from);
    SizeKept(b, d');
    if !done {
      WriteComplete(b, d', data, from, to, NextWord(d, next));
      var after := WriteAll(b, d, data, from, to, next);
      SameChain(Target(b, after), Target(b, d'), Target(b, d), from, to);
    }
  }

  /* ---- A byte that is lost ---- */

  predicate Covers(c: Command, at: int) {
    c.Pending? && c.at <= at < c.at + |c.bytes|
  }

  predicate Spares(c: Command, at: int, y: Byte) {
    Covers(c, at) ==> c.bytes[at - c.at] != y
  }

  // The byte at an address is not y, and no command under way, nor any that goes wrong, will make it y.
  ghost predicate Lost(b: Board, d: Device, at: int, y: Byte) {
    && 0 <= at < |d.flash| && d.flash[at] != y && Spares(d.bank0, at, y) && Spares(d.bank1, at, y)
    && forall n, i :: b.garbage(n, i) != y
  }

  lemma LandedByte(image: seq<Byte>, c: Command, at: int)
    requires Inside(c, 0, |image|) && 0 <= at < |image|
    ensures Landed(image, c)[at]
         == if Covers(c, at) then c.bytes[at - c.at] else image[at]
  {
    if c.Pending? {
      PutAt(image, c.at, c.bytes);
    }
  }

  lemma SoundBanks(b: Board, d: Device)
    requires Sound(b, d)
    ensures |d.flash| == b.size && Inside(d.bank0, 0, b.size) && Inside(d.bank1, 0, b.size)
    ensures Inside(d.bank0, 0, b.boundary) && Inside(d.bank1, b.boundary, b.size)
  {
  }

  // A byte after a poll: what a command that has ended leaves of it, or what it was.
  lemma PassedByte(b: Board, d: Device, at: int)
    requires Sound(b, d) && 0 <= at < b.size
    ensures var byte := Passed(b, d).flash[at];
            || byte == d.flash[at]
            || (Covers(d.bank0, at) && byte == d.bank0.bytes[at - d.bank0.at])
            || (Covers(d.bank1, at) && byte == d.bank1.bytes[at - d.bank1.at])
  {
    hide Landed, Put, Sound;
    SoundBanks(b, d);
    var image := if d.bank0.Pending? && d.bank0.remaining == 0 then Landed(d.flash, d.bank0) else d.flash;
    LandedByte(d.flash, d.bank0, at);
    LandedByte(image, d.bank1, at);
  }

  lemma PassedBanks(b: Board, d: Device)
    requires Sound(b, d)
    ensures Sound(b, Passed(b, d)) && |Passed(b, d).flash| == b.size
    ensures Passed(b, d).bank0 == Later(d.bank0) && Passed(b, d).bank1 == Later(d.bank1)
  {
    PassedTarget(b, d);
  }

  lemma PassedLost(b: Board, d: Device, at: int, y: Byte)
    requires Sound(b, d) && Lost(b, d, at, y)
    ensures Sound(b, Passed(b, d)) && Lost(b, Passed(b, d), at, y)
  {
    hide Passed, Sound;
    SoundBanks(b, d);
    PassedByte(b, d, at);
    PassedBanks(b, d);
  }

  lemma IssuedLost(b: Board, d: Device, at: int, y: Byte, address: int, bytes: seq<Byte>)
    requires Sound(b, d) && Lost(b, d, at, y)
    requires Open(b, d, address) && Clear(b, d, address, |bytes|) && address <= at < address + |bytes| ==>
               bytes[at - address] != y
    ensures Lost(b, Issued(b, d, address, bytes), at, y)
  {
  }

  // The word that holds the byte has been passed.
  ghost predicate Behind(b: Board, d: Device, at: int, y: Byte, from: int, next: int) {
    Lost(b, d, at, y) && at < from + next
  }

  // The byte is in the second bank, which is locked.
  ghost predicate Shut(b: Board, d: Device, at: int, y: Byte) {
    Lost(b, d, at, y) && b.boundary <= at && !d.open1
  }

  // The word at from + k, still to come, lies across both banks.
  ghost predicate Across(b: Board, d: Device, from: int, next: int, k: int) {
    next <= k && from + k < b.boundary < from + k + WORD && d.open0
  }

  // The word next to be programmed finds its bank at a command.
  ghost predicate Meets(b: Board, d: Device, from: int, next: int, k: int) {
    && next == k && d.state == WriteProgram && Open(b, d, from + k)
    && BankOf(b, d, from + k).Pending? && BankOf(b, d, from + k).remaining > 0
  }

  // The first word in the second bank will find that bank at a command.
  ghost predicate WillMeet(b: Board, d: Device, from: int, next: int, k: int) {
    && next <= k && from % WORD == 0 && from + k == b.boundary && d.open0 && d.open1
    && d.bank1.Pending? && d.bank1.remaining >= WriteRank(b, d) && (forall n :: b.timing(n) == 0)
    && (d.bank0.Pending? ==> d.state == WriteBusy && d.bank0.remaining == 0)
  }

  predicate Apart(c: Command, lo: int, hi: int) {
    c.Pending? ==> c.at + |c.bytes| <= lo || hi <= c.at
  }

  // The word at from + k, still to come, is not erased.
  ghost predicate Used(b: Board, d: Device, at: int, y: Byte, from: int, next: int, k: int) {
    next <= k && Lost(b, d, at, y) && StaysUsed(d, from + k) && forall n, i :: b.garbage(n, i) != ERASED
  }

  // The byte, in the word at from + k, will not be y in the end.
  ghost predicate Doomed(b: Board, d: Device, at: int, y: Byte, from: int, next: int, k: int) {
    && 0 <= k && k % WORD == 0 && from + k <= at < from + k + WORD && (forall n, i :: b.garbage(n, i) != y)
    && (Behind(b, d, at, y, from, next) || Shut(b, d, at, y) || Across(b, d, from, next, k)
        || Meets(b, d, from, next, k) || WillMeet(b, d, from, next, k) || Used(b, d, at, y, from, next, k))
  }

  // One poll of the write under way, after which the byte is as doomed as before, or lost.
  ghost predicate StaysDoomed(b: Board, d: Device, word: seq<Byte>, at: int, y: Byte, from: int, to: int, next: int,
                              k: int)
    requires Sound(b, d) && (d.state == WriteProgram ==> |word| == WORD)
  {
    var (d', done, ok) := WriteStep(b, d, word, from, to - from);
    if done then Lost(b, d', at, y) else Doomed(b, d', at, y, from, NextWord(d, next), k)
  }

  // A word in the second bank, or not yet at its turn.
  ghost predicate Turn(d: Device, word: seq<Byte>, from: int, to: int, next: int, at: int, k: int) {
    && 0 <= k && k % WORD == 0 && from + k <= at < from + k + WORD && k + WORD <= to - from
    && (d.state == WriteProgram ==> |word| == WORD)
  }

  // The word that a poll of the write programs now, if it does.
  function Asked(b: Board, d: Device, word: seq<Byte>): (bytes: seq<Byte>)
    requires Sound(b, d) && |word| == WORD
    ensures |bytes| == WORD
  {
    WordOver(b, d.issued, Present(Passed(b, d), d.address), word)
  }

  // The word programmed now does not put y there.
  ghost predicate Misses(b: Board, d: Device, word: seq<Byte>, at: int, y: Byte)
    requires Sound(b, d) && (d.state == WriteProgram ==> |word| == WORD)
  {
    d.state == WriteProgram && d.address <= at < d.address + WORD ==>
      !Open(b, d, d.address) || !Clear(b, Passed(b, d), d.address, WORD) || Asked(b, d, word)[at - d.address] != y
  }

  lemma LostStays(b: Board, d: Device, word: seq<Byte>, at: int, y: Byte, from: int, to: int, next: int)
    requires WriteAt(b, d, from, to, next) && Lost(b, d, at, y) && (d.state == WriteProgram ==> |word| == WORD)
    requires Misses(b, d, word, at, y)
    ensures Lost(b, WriteStep(b, d, word, from, to - from).0, at, y)
  {
    hide Passed, Issued, WordOver, Present, Lost, Clear, Sound;
    PassedLost(b, d, at, y);
    PassedControl(b, d);
    var d' := Passed(b, d);
    var after := WriteStep(b, d, word, from, to - from).0;
    if d.state == WriteProgram {
      var bytes := Asked(b, d, word);
      IssuedLost(b, d', at, y, d'.address, bytes);
      LostSame(b, Issued(b, d', d'.address, bytes), after, at, y);
    } else {
      LostSame(b, d', after, at, y);
    }
  }

  lemma LostSame(b: Board, d: Device, d': Device, at: int, y: Byte)
    requires Lost(b, d, at, y) && d'.flash == d.flash && d'.bank0 == d.bank0 && d'.bank1 == d.bank1
    ensures Lost(b, d', at, y)
  {
  }

  lemma LostByte(b: Board, d: Device, at: int, y: Byte)
    requires Lost(b, d, at, y)
    ensures 0 <= at < |d.flash| && d.flash[at] != y
  {
  }

  // Where the write is after a poll, and that it leaves the locks alone.
  lemma StepControl(b: Board, d: Device, word: seq<Byte>, from: int, to: int, next: int)
    requires WriteAt(b, d, from, to, next) && (d.state == WriteProgram ==> |word| == WORD)
    ensures Sound(b, d) && (d.state == WriteProgram ==> d.address == from + next && next + WORD <= to - from)
    ensures var (d', done, ok) := WriteStep(b, d, word, from, to - from);
            && (done ==> next == to - from) && (!done ==> d'.open0 == d.open0 && d'.open1 == d.open1)
  {
    hide Passed, Issued, WordOver, Present;
    PassedControl(b, d);
    if d.state == WriteProgram {
      IssuedLocks(b, Passed(b, d), d.address, Asked(b, d, word));
    }
  }

  lemma BehindStays(b: Board, d: Device, word: seq<Byte>, at: int, y: Byte, from: int, to: int, next: int, k: int)
    requires WriteAt(b, d, from, to, next) && Turn(d, word, from, to, next, at, k) && Behind(b, d, at, y, from, next)
    ensures StaysDoomed(b, d, word, at, y, from, to, next, k)
  {
    hide WriteStep, WriteAt, Lost, Shut, Across, Meets, WillMeet, Used;
    StepControl(b, d, word, from, to, next);
    LostStays(b, d, word, at, y, from, to, next);
    var after := WriteStep(b, d, word, from, to - from).0;
    GarbageNot(b, after, at, y);
    LostByte(b, after, at, y);
  }

  lemma GarbageNot(b: Board, d: Device, at: int, y: Byte)
    requires Lost(b, d, at, y)
    ensures forall n, i :: b.garbage(n, i) != y
  {
  }

  lemma ShutStays(b: Board, d: Device, word: seq<Byte>, at: int, y: Byte, from: int, to: int, next: int, k: int)
    requires WriteAt(b, d, from, to, next) && Turn(d, word, from, to, next, at, k) && Shut(b, d, at, y)
    ensures StaysDoomed(b, d, word, at, y, from, to, next, k)
  {
    hide WriteStep, WriteAt, Lost, Behind, Across, Meets, WillMeet, Used, Passed;
    StepControl(b, d, word, from, to, next);
    LostStays(b, d, word, at, y, from, to, next);
    var after := WriteStep(b, d, word, from, to - from).0;
    GarbageNot(b, after, at, y);
    LostByte(b, after, at, y);
  }

  lemma IssuedLocks(b: Board, d: Device, at: int, bytes: seq<Byte>)
    ensures Issued(b, d, at, bytes).open0 == d.open0 && Issued(b, d, at, bytes).open1 == d.open1
  {
  }

  // A command that goes wrong leaves nothing but what the board chooses.
  lemma Spoiled(b: Board, d: Device, at: int, y: Byte, address: int, bytes: seq<Byte>)
    requires Sound(b, d) && 0 <= at < b.size && Open(b, d, address) && !Clear(b, d, address, |bytes|)
    requires forall n, i :: b.garbage(n, i) != y
    ensures Lost(b, Issued(b, d, address, bytes), at, y)
  {
  }

  lemma AcrossStays(b: Board, d: Device, word: seq<Byte>, at: int, y: Byte, from: int, to: int, next: int, k: int)
    requires WriteAt(b, d, from, to, next) && Turn(d, word, from, to, next, at, k) && Across(b, d, from, next, k)
    requires forall n, i :: b.garbage(n, i) != y
    ensures StaysDoomed(b, d, word, at, y, from, to, next, k)
  {
    hide Passed, Issued, WordOver, Present, Lost, Shut, Meets, WillMeet, Used;
    SoundBanks(b, d);
    PassedBanks(b, d);
    PassedControl(b, d);
    StepControl(b, d, word, from, to, next);
    var d' := Passed(b, d);
    if d.state == WriteProgram {
      var bytes := Asked(b, d, word);
      if next == k {
        Spoiled(b, d', at, y, d'.address, bytes);
        LostSame(b, Issued(b, d', d'.address, bytes), WriteStep(b, d, word, from, to - from).0, at, y);
      } else {
        WordsApart(next, k);
      }
    }
    hide Sound;
  }

  // A command with polls to go is still there after the next.
  lemma PassedPending(b: Board, d: Device, address: int)
    requires Sound(b, d) && BankOf(b, d, address).Pending? && BankOf(b, d, address).remaining > 0
    ensures BankOf(b, Passed(b, d), address).Pending?
    ensures BankOf(b, Passed(b, d), address).remaining == BankOf(b, d, address).remaining - 1
  {
  }

  lemma MeetsStays(b: Board, d: Device, word: seq<Byte>, at: int, y: Byte, from: int, to: int, next: int, k: int)
    requires WriteAt(b, d, from, to, next) && Turn(d, word, from, to, next, at, k) && Meets(b, d, from, next, k)
    requires forall n, i :: b.garbage(n, i) != y
    ensures StaysDoomed(b, d, word, at, y, from, to, next, k)
  {
    hide Passed, Issued, WordOver, Present, Lost, Shut, Across, WillMeet, Used;
    SoundBanks(b, d);
    PassedBanks(b, d);
    PassedControl(b, d);
    PassedPending(b, d, d.address);
    var d', bytes := Passed(b, d), Asked(b, d, word);
    Spoiled(b, d', at, y, d'.address, bytes);
    LostSame(b, Issued(b, d', d'.address, bytes), WriteStep(b, d, word, from, to - from).0, at, y);
    hide Sound;
  }

  lemma FirstBankPassed(b: Board, d: Device)
    requires Sound(b, d) && (d.bank0.Pending? ==> d.bank0.remaining == 0)
    ensures Passed(b, d).bank0.Nothing?
  {
  }

  lemma FirstBankIssued(b: Board, d: Device, address: int, bytes: seq<Byte>)
    requires Sound(b, d) && d.open0 && d.bank0.Nothing? && 0 <= address && address + |bytes| <= b.boundary
    requires b.boundary <= b.size && bytes != [] && b.timing(d.issued) == 0
    ensures var d' := Issued(b, d, address, bytes);
            && d'.bank1 == d.bank1 && d'.bank0.Pending? && d'.bank0.remaining == 0
  {
  }

  lemma WordsApart(next: int, k: int)
    requires next % WORD == 0 && k % WORD == 0 && next < k
    ensures next + WORD <= k
  {
  }

  lemma WillMeetStays(b: Board, d: Device, word: seq<Byte>, at: int, y: Byte, from: int, to: int, next: int, k: int)
    requires WriteAt(b, d, from, to, next) && Turn(d, word, from, to, next, at, k) && WillMeet(b, d, from, next, k)
    requires forall n, i :: b.garbage(n, i) != y
    ensures StaysDoomed(b, d, word, at, y, from, to, next, k)
  {
    hide Passed, Issued, WordOver, Present, Lost, Shut, Across, Meets, Used;
    SoundBanks(b, d);
    PassedBanks(b, d);
    PassedControl(b, d);
    PassedPending(b, d, b.boundary);
    FirstBankPassed(b, d);
    StepControl(b, d, word, from, to, next);
    var d' := Passed(b, d);
    if d.state == WriteProgram {
      var bytes := Asked(b, d, word);
      IssuedLocks(b, d', d'.address, bytes);
      if next == k {
        Spoiled(b, d', at, y, d'.address, bytes);
        LostSame(b, Issued(b, d', d'.address, bytes), WriteStep(b, d, word, from, to - from).0, at, y);
      } else {
        WordsApart(next, k);
        FirstBankIssued(b, d', d'.address, bytes);
      }
    }
    hide Sound;
  }

  lemma PassedUsed(b: Board, d: Device, lo: int, hi: int)
    requires Sound(b, d) && Apart(d.bank0, lo, hi) && Apart(d.bank1, lo, hi) && 0 <= lo <= hi <= b.size
    ensures var d' := Passed(b, d);
            && Sound(b, d') && |d'.flash| == |d.flash| == b.size && d'.flash[lo..hi] == d.flash[lo..hi]
            && Apart(d'.bank0, lo, hi) && Apart(d'.bank1, lo, hi)
  {
    hide Passed, Sound;
    SoundBanks(b, d);
    PassedBanks(b, d);
    forall at | lo <= at < hi
      ensures Passed(b, d).flash[at] == d.flash[at]
    {
      PassedByte(b, d, at);
    }
  }

  lemma IssuedUsed(b: Board, d: Device, at: int, bytes: seq<Byte>, lo: int)
    requires Sound(b, d) && 0 <= lo && lo + WORD <= b.size
    requires StaysUsed(d, lo) && at + |bytes| <= lo && forall n, i :: b.garbage(n, i) != ERASED
    ensures StaysUsed(Issued(b, d, at, bytes), lo)
  {
    if Open(b, d, at) && !Clear(b, d, at, |bytes|) {
      assert Present(Issued(b, d, at, bytes), lo)[0] != ERASED;
    }
  }

  lemma UsedAsked(b: Board, d: Device, word: seq<Byte>, y: Byte, lo: int)
    requires Sound(b, d) && |word| == WORD && d.address == lo && 0 <= lo && lo + WORD <= b.size
    requires StaysUsed(d, lo) && forall n, i :: b.garbage(n, i) != y
    ensures forall i :: 0 <= i < WORD ==> Asked(b, d, word)[i] != y
  {
    hide Passed, Blank;
    PassedUsed(b, d, lo, lo + WORD);
  }

  // The word at lo is not erased, and nothing is about to change it.
  ghost predicate StaysUsed(d: Device, lo: int) {
    Apart(d.bank0, lo, lo + WORD) && Apart(d.bank1, lo, lo + WORD) && Present(d, lo) != Blank(WORD)
  }

  lemma PassedStaysUsed(b: Board, d: Device, lo: int)
    requires Sound(b, d) && StaysUsed(d, lo) && 0 <= lo && lo + WORD <= b.size
    ensures StaysUsed(Passed(b, d), lo)
  {
    hide Passed, Sound, Apart, Blank;
    PassedUsed(b, d, lo, lo + WORD);
  }

  lemma SameStaysUsed(d: Device, d': Device, lo: int)
    requires StaysUsed(d, lo) && d'.flash == d.flash && d'.bank0 == d.bank0 && d'.bank1 == d.bank1
    ensures StaysUsed(d', lo)
  {
  }

  lemma UsedStep(b: Board, d: Device, word: seq<Byte>, from: int, to: int, next: int, lo: int)
    requires WriteAt(b, d, from, to, next) && (d.state == WriteProgram ==> |word| == WORD)
    requires d.state == WriteProgram ==> d.address + WORD <= lo
    requires StaysUsed(d, lo) && 0 <= lo && lo + WORD <= b.size && forall n, i :: b.garbage(n, i) != ERASED
    ensures StaysUsed(WriteStep(b, d, word, from, to - from).0, lo)
  {
    hide Passed, Issued, Sound, WordOver, StaysUsed;
    PassedBanks(b, d);
    PassedControl(b, d);
    PassedStaysUsed(b, d, lo);
    var d' := Passed(b, d);
    var after := WriteStep(b, d, word, from, to - from).0;
    if d.state == WriteProgram {
      IssuedUsed(b, d', d.address, Asked(b, d, word), lo);
      SameStaysUsed(Issued(b, d', d.address, Asked(b, d, word)), after, lo);
    } else {
      SameStaysUsed(d', after, lo);
    }
  }

  lemma UsedStays(b: Board, d: Device, word: seq<Byte>, at: int, y: Byte, from: int, to: int, next: int, k: int)
    requires WriteAt(b, d, from, to, next) && Turn(d, word, from, to, next, at, k) && Used(b, d, at, y, from, next, k)
    ensures StaysDoomed(b, d, word, at, y, from, to, next, k)
  {
    hide WriteStep, Lost, Shut, Across, Meets, WillMeet, Passed, StaysUsed, Asked, Sound;
    StepControl(b, d, word, from, to, next);
    GarbageNot(b, d, at, y);
    if d.state == WriteProgram && next == k {
      UsedAsked(b, d, word, y, from + k);
    } else {
      UsedStep(b, d, word, from, to, next, from + k);
    }
    LostStays(b, d, word, at, y, from, to, next);
    LostByte(b, WriteStep(b, d, word, from, to - from).0, at, y);
  }

  lemma DoomedStays(b: Board, d: Device, word: seq<Byte>, at: int, y: Byte, from: int, to: int, next: int, k: int)
    requires WriteAt(b, d, from, to, next) && Turn(d, word, from, to, next, at, k) && Doomed(b, d, at, y, from, next, k)
    ensures StaysDoomed(b, d, word, at, y, from, to, next, k)
  {
    hide StaysDoomed, WriteAt, Turn, Behind, Shut, Across, Meets, WillMeet, Used;
    if Behind(b, d, at, y, from, next) {
      BehindStays(b, d, word, at, y, from, to, next, k);
    } else if Shut(b, d, at, y) {
      ShutStays(b, d, word, at, y, from, to, next, k);
    } else if Across(b, d, from, next, k) {
      AcrossStays(b, d, word, at, y, from, to, next, k);
    } else if Meets(b, d, from, next, k) {
      MeetsStays(b, d, word, at, y, from, to, next, k);
    } else if WillMeet(b, d, from, next, k) {
      WillMeetStays(b, d, word, at, y, from, to, next, k);
    } else {
      UsedStays(b, d, word, at, y, from, to, next, k);
    }
  }

  lemma {:induction false} WriteLost(b: Board, d: Device, data: seq<Byte>, from: int, to: int, next: int, at: int,
                                     y: Byte, k: int)
    requires WriteAt(b, d, from, to, next) && to - from <= |data| && Doomed(b, d, at, y, from, next, k)
    requires k + WORD <= to - from
    ensures var after := WriteAll(b, d, data, from, to, next);
            Lost(b, after, at, y)
    decreases WriteRank(b, d), Waiting(b, d)
  {
    hide WriteStep, WriteAt, Lost, Behind, Shut, Across, Meets, WillMeet, Used;
    WriteAtFacts(b, d, from, to, next);
    WriteMoves(b, d, WordOf(d, data, next), from, to, next, from, to - from);
    DoomedStays(b, d, WordOf(d, data, next), at, y, from, to, next, k);
    var (d', done, ok) := WriteStep(b, d, WordOf(d, data, next), from, to - from);
    if !done {
      WriteLost(b, d', data, from, to, NextWord(d, next), at, y, k);
    }
  }

  /* ---- A write begun ---- */

  // The driver once an erase is given up, if one is under way.
  function Freed(b: Board, d: Device, offset: nat, total: nat): Device
    requires Sound(b, d)
  {
    if Erasing(d) then WriteStep(b, d, [], offset, total).0 else d
  }

  // ... and once the buffer is taken: the first word is next.
  function Ready(b: Board, d: Device, offset: nat, total: nat): Device
    requires Sound(b, d) && !Writing(d) && Acceptable(b.size, offset, total)
  {
    FreedIs(b, d, offset, total);
    WriteStep(b, Freed(b, d, offset, total), [], offset, total).0
  }

  lemma FreedIs(b: Board, d: Device, offset: nat, total: nat)
    requires Sound(b, d) && !Writing(d)
    ensures Sound(b, Freed(b, d, offset, total)) && Freed(b, d, offset, total).state == Idle
  {
    WriteBegins(b, d, offset, total);
  }

  lemma ReadyIs(b: Board, d: Device, offset: nat, total: nat)
    requires Sound(b, d) && !Writing(d) && Acceptable(b.size, offset, total)
    ensures Sound(b, Freed(b, d, offset, total)) && Freed(b, d, offset, total).state == Idle
    ensures var ready := Ready(b, d, offset, total);
            WriteAt(b, ready, offset, offset + total, 0) && ready.state == WriteProgram && Open(b, ready, offset)
    ensures Erasing(d) ==> !WriteStep(b, d, [], offset, total).1
    ensures !WriteStep(b, Freed(b, d, offset, total), [], offset, total).1
  {
    hide WriteStep, WriteAt, Acceptable, Open;
    FreedIs(b, d, offset, total);
    WriteBegins(b, d, offset, total);
    WriteBegins(b, Freed(b, d, offset, total), offset, total);
    WriteStepFacts(b, Freed(b, d, offset, total), [], offset, total);
    ReadyProgram(b, Freed(b, d, offset, total), offset, total);
  }

  lemma ReadyProgram(b: Board, d: Device, offset: nat, total: nat)
    requires Sound(b, d) && d.state == Idle && Acceptable(b.size, offset, total)
    ensures WriteStep(b, d, [], offset, total).0.state == WriteProgram
  {
    PassedControl(b, d);
    hide Passed;
  }

  // Either poll lets time pass and may unlock a bank.
  lemma BeginningStep(b: Board, d: Device, offset: nat, total: nat)
    requires Sound(b, d) && !Writing(d) && Acceptable(b.size, offset, total)
    ensures var d', passed := WriteStep(b, d, [], offset, total).0, Passed(b, d);
            && d'.flash == passed.flash && d'.bank0 == passed.bank0 && d'.bank1 == passed.bank1
            && (d.open0 ==> d'.open0) && (d.open1 ==> d'.open1) && (offset < b.boundary ==> d'.open1 == d.open1)
  {
    PassedControl(b, d);
    hide Passed;
  }

  // Polls of a write of the data until it says it is done, unless the driver is at another write.
  ghost function WriteFrom(b: Board, d: Device, data: seq<Byte>, offset: nat): Device
    requires Sound(b, d) && !Writing(d) && Acceptable(b.size, offset, |data|)
  {
    ReadyIs(b, d, offset, |data|);
    WriteAll(b, Ready(b, d, offset, |data|), data, offset, offset + |data|, 0)
  }

  // What is lost behind a write stays lost.
  lemma {:induction false} WriteAllBehind(b: Board, d: Device, data: seq<Byte>, from: int, to: int, next: int, at: int,
                                          y: Byte)
    requires WriteAt(b, d, from, to, next) && to - from <= |data| && Behind(b, d, at, y, from, next)
    ensures Lost(b, WriteAll(b, d, data, from, to, next), at, y)
    decreases WriteRank(b, d), Waiting(b, d)
  {
    hide WriteStep, WriteAt, Lost;
    WriteAtFacts(b, d, from, to, next);
    WriteMoves(b, d, WordOf(d, data, next), from, to, next, from, to - from);
    StepControl(b, d, WordOf(d, data, next), from, to, next);
    LostStays(b, d, WordOf(d, data, next), at, y, from, to, next);
    var (d', done, ok) := WriteStep(b, d, WordOf(d, data, next), from, to - from);
    if !done {
      WriteAllBehind(b, d', data, from, to, NextWord(d, next), at, y);
    }
  }

  lemma WriteFromBehind(b: Board, d: Device, data: seq<Byte>, offset: nat, at: int, y: Byte)
    requires Sound(b, d) && !Writing(d) && Acceptable(b.size, offset, |data|) && Lost(b, d, at, y) && at < offset
    ensures Lost(b, WriteFrom(b, d, data, offset), at, y)
  {
    hide WriteAll, WriteAt, Lost, Ready;
    ReadyIs(b, d, offset, |data|);
    ReadyLost(b, d, offset, |data|, at, y);
    WriteAllBehind(b, Ready(b, d, offset, |data|), data, offset, offset + |data|, 0, at, y);
  }

  lemma {:induction false} WriteAllEnds(b: Board, d: Device, data: seq<Byte>, from: int, to: int, next: int)
    requires WriteAt(b, d, from, to, next) && to - from <= |data|
    ensures var after := WriteAll(b, d, data, from, to, next);
            Sound(b, after) && after.state == Idle && |after.flash| == b.size
    decreases WriteRank(b, d), Waiting(b, d)
  {
    hide WriteStep, WriteAt, Sound;
    WriteAtFacts(b, d, from, to, next);
    WriteMoves(b, d, WordOf(d, data, next), from, to, next, from, to - from);
    var (d', done, ok) := WriteStep(b, d, WordOf(d, data, next), from, to - from);
    if done {
      SizeKept(b, d');
    } else {
      WriteAllEnds(b, d', data, from, to, NextWord(d, next));
    }
  }

  lemma WriteFromEnds(b: Board, d: Device, data: seq<Byte>, offset: nat)
    requires Sound(b, d) && !Writing(d) && Acceptable(b.size, offset, |data|)
    ensures var after := WriteFrom(b, d, data, offset);
            Sound(b, after) && after.state == Idle && |after.flash| == b.size
  {
    hide WriteAll, Ready, WriteAt;
    ReadyIs(b, d, offset, |data|);
    WriteAllEnds(b, Ready(b, d, offset, |data|), data, offset, offset + |data|, 0);
  }

  ghost predicate Stores(b: Board, d: Device, data: seq<Byte>, offset: nat)
    requires Sound(b, d) && !Writing(d) && Acceptable(b.size, offset, |data|)
  {
    var after := WriteFrom(b, d, data, offset);
    |after.flash| == b.size && after.flash[offset..offset + |data|] == data
  }

  // Erased, in banks that are free, and, if it goes on from one bank to the other, in whole words and with the other
  // bank unlocked.
  ghost predicate Writable(b: Board, d: Device, from: int, to: int)
    requires 0 <= from <= to <= |d.flash|
  {
    && AllErased(d.flash[from..to]) && FreeOver(b, d, from, to)
    && (from < b.boundary < to ==> d.open1 && from % WORD == 0)
  }

  lemma WritableStores(b: Board, d: Device, data: seq<Byte>, offset: nat)
    requires Sound(b, d) && !Writing(d) && Acceptable(b.size, offset, |data|)
    requires offset + |data| <= |d.flash| && Writable(b, d, offset, offset + |data|)
    ensures Stores(b, d, data, offset)
    ensures var after := WriteFrom(b, d, data, offset);
            && Sound(b, after) && FreeOver(b, after, offset, offset + |data|)
            && SameOutside(Target(b, after), Target(b, d), offset, offset + |data|)
  {
    hide WriteAll, WriteAt, AllErased, WriteGoing, Target, Ready;
    var ready, end := Ready(b, d, offset, |data|), offset + |data|;
    ReadyIs(b, d, offset, |data|);
    ReadyFree(b, d, offset, |data|);
    WriteBeginsGoing(b, ready, data, offset, |data|);
    WriteComplete(b, ready, data, offset, end, 0);
    assert data[..|data|] == data;
  }

  // Free banks stay free, and the region as it is.
  lemma FreeStep(b: Board, d: Device, offset: nat, total: nat)
    requires Sound(b, d) && !Writing(d) && Acceptable(b.size, offset, total)
    requires FreeOver(b, d, offset, offset + total)
    ensures var d' := WriteStep(b, d, [], offset, total).0;
            && Sound(b, d') && FreeOver(b, d', offset, offset + total) && Target(b, d') == Target(b, d)
            && d'.flash[offset..offset + total] == d.flash[offset..offset + total]
  {
    hide WriteStep, Passed, Target, Sound;
    PassedTarget(b, d);
    BeginningStep(b, d, offset, total);
    RegionTarget(b, d, offset, offset + total, offset, offset + total);
    var d' := WriteStep(b, d, [], offset, total).0;
    PassedFree(b, d, offset, offset + total);
    SizeKept(b, d);
    SameTarget(b, Passed(b, d), d');
    RegionTarget(b, d', offset, offset + total, offset, offset + total);
  }

  lemma PassedFree(b: Board, d: Device, from: int, to: int)
    requires Sound(b, d) && FreeOver(b, d, from, to)
    ensures FreeOver(b, Passed(b, d), from, to)
  {
  }

  lemma ReadyFree(b: Board, d: Device, offset: nat, total: nat)
    requires Sound(b, d) && !Writing(d) && Acceptable(b.size, offset, total)
    requires FreeOver(b, d, offset, offset + total)
    ensures var ready := Ready(b, d, offset, total);
            && Sound(b, ready) && FreeOver(b, ready, offset, offset + total) && Target(b, ready) == Target(b, d)
            && ready.flash[offset..offset + total] == d.flash[offset..offset + total]
            && (d.open1 ==> ready.open1)
  {
    hide WriteStep, FreeOver, Target;
    FreedIs(b, d, offset, total);
    var freed := Freed(b, d, offset, total);
    if Erasing(d) {
      FreeStep(b, d, offset, total);
      BeginningStep(b, d, offset, total);
    }
    FreeStep(b, freed, offset, total);
    BeginningStep(b, freed, offset, total);
  }

  /* ---- Starts from which some write is lost ---- */

  function Lasting(c: Command, polls: nat): Command {
    match c
    case Nothing => Nothing
    case Pending(at, bytes, _) => Pending(at, bytes, polls)
  }

  // The same device, with other times left to the commands under way.
  function Retimed(d: Device, polls0: nat, polls1: nat): Device {
    d.(bank0 := Lasting(d.bank0, polls0), bank1 := Lasting(d.bank1, polls1))
  }

  lemma RetimedSound(b: Board, b': Board, d: Device, polls0: nat, polls1: nat)
    requires Sound(b, d) && b'.size == b.size && b'.boundary == b.boundary
    ensures Sound(b', Retimed(d, polls0, polls1))
  {
  }

  lemma BeginningBank(b: Board, d: Device, offset: nat, total: nat, address: int)
    requires Sound(b, d) && !Writing(d) && Acceptable(b.size, offset, total)
    ensures var d' := WriteStep(b, d, [], offset, total).0;
            var c, c' := BankOf(b, d, address), BankOf(b, d', address);
            && (c.Nothing? ==> c'.Nothing?)
            && (c.Pending? && c.remaining > 0 ==> c'.Pending? && c'.remaining == c.remaining - 1)
  {
    BeginningStep(b, d, offset, total);
    hide WriteStep;
  }

  lemma ReadyBank(b: Board, d: Device, offset: nat, total: nat, address: int)
    requires Sound(b, d) && !Writing(d) && Acceptable(b.size, offset, total)
    ensures var ready := Ready(b, d, offset, total);
            var c, c' := BankOf(b, d, address), BankOf(b, ready, address);
            && (c.Nothing? ==> c'.Nothing?)
            && (c.Pending? && c.remaining > 1 ==> c'.Pending? && c'.remaining >= c.remaining - 2)
            && (d.open1 ==> ready.open1) && (offset < b.boundary ==> ready.open1 == d.open1)
  {
    hide WriteStep, BankOf;
    FreedIs(b, d, offset, total);
    var freed := Freed(b, d, offset, total);
    if Erasing(d) {
      BeginningBank(b, d, offset, total, address);
      BeginningStep(b, d, offset, total);
    }
    BeginningBank(b, freed, offset, total, address);
    BeginningStep(b, freed, offset, total);
  }

  lemma BeginningLost(b: Board, d: Device, offset: nat, total: nat, at: int, y: Byte)
    requires Sound(b, d) && !Writing(d) && Acceptable(b.size, offset, total) && Lost(b, d, at, y)
    ensures Lost(b, WriteStep(b, d, [], offset, total).0, at, y)
  {
    hide WriteStep, Passed, Lost;
    BeginningStep(b, d, offset, total);
    PassedLost(b, d, at, y);
    LostSame(b, Passed(b, d), WriteStep(b, d, [], offset, total).0, at, y);
  }

  lemma ReadyLost(b: Board, d: Device, offset: nat, total: nat, at: int, y: Byte)
    requires Sound(b, d) && !Writing(d) && Acceptable(b.size, offset, total) && Lost(b, d, at, y)
    ensures Lost(b, Ready(b, d, offset, total), at, y)
  {
    hide WriteStep, Lost;
    FreedIs(b, d, offset, total);
    if Erasing(d) {
      BeginningLost(b, d, offset, total, at, y);
    }
    BeginningLost(b, Freed(b, d, offset, total), offset, total, at, y);
  }

  // A board that is quick with its commands, and leaves 0 where nothing is promised.
  function QuickBoard(size: nat, boundary: nat): Board {
    Board(size, boundary, n => 0, (n, i) => 0)
  }

  // A byte that is none of three.
  function Another(a: Byte, b: Byte, c: Byte): (y: Byte)
    ensures y != a && y != b && y != c
  {
    if 1 != a && 1 != b && 1 != c then 1
    else if 2 != a && 2 != b && 2 != c then 2
    else if 3 != a && 3 != b && 3 != c then 3
    else 4
  }

  // What a command would make of a byte, if it concerns it.
  function ByteOf(c: Command, at: int): Byte {
    if Covers(c, at) then c.bytes[at - c.at] else 0
  }

  // The write of a region begins so that one of its bytes will not be y.
  ghost predicate Fails(b: Board, d: Device, offset: nat, total: nat, at: int, y: Byte, k: int)
    requires Sound(b, d) && !Writing(d) && Acceptable(b.size, offset, total)
  {
    && 0 <= k && k + WORD <= total && offset <= at < offset + total
    && Doomed(b, Ready(b, d, offset, total), at, y, offset, 0, k)
  }

  lemma FailsLost(b: Board, d: Device, data: seq<Byte>, offset: nat, at: int, y: Byte, k: int)
    requires Sound(b, d) && !Writing(d) && Acceptable(b.size, offset, |data|) && Fails(b, d, offset, |data|, at, y, k)
    ensures offset <= at < offset + |data| && Lost(b, WriteFrom(b, d, data, offset), at, y)
  {
    hide WriteAll, WriteAt, Doomed, Ready, Lost;
    ReadyIs(b, d, offset, |data|);
    WriteLost(b, Ready(b, d, offset, |data|), data, offset, offset + |data|, 0, at, y, k);
  }

  lemma FailsUnstored(b: Board, d: Device, data: seq<Byte>, offset: nat, at: int, y: Byte, k: int)
    requires Sound(b, d) && !Writing(d) && Acceptable(b.size, offset, |data|)
    requires Fails(b, d, offset, |data|, at, y, k) && data[at - offset] == y
    ensures !Stores(b, d, data, offset)
  {
    hide WriteFrom, Fails, Lost;
    FailsLost(b, d, data, offset, at, y, k);
    var after := WriteFrom(b, d, data, offset);
    LostByte(b, after, at, y);
    assert |after.flash| == b.size ==> after.flash[offset..offset + |data|][at - offset] == after.flash[at];
  }

  lemma OwnBankBusy(b: Board, d: Device, offset: nat, total: nat, y: Byte)
    requires Sound(b, d) && !Writing(d) && Acceptable(b.size, offset, total)
    requires BankOf(b, d, offset).Pending? && BankOf(b, d, offset).remaining > 2 && forall n, i :: b.garbage(n, i) != y
    ensures Fails(b, d, offset, total, offset, y, 0)
  {
    hide Ready, WriteAt;
    ReadyIs(b, d, offset, total);
    ReadyBank(b, d, offset, total, offset);
    assert Meets(b, Ready(b, d, offset, total), offset, 0, 0);
  }

  lemma OtherBankShut(b: Board, d: Device, offset: nat, total: nat)
    requires Sound(b, d) && !Writing(d) && Acceptable(b.size, offset, total)
    requires offset < b.boundary < offset + total && !d.open1 && forall n, i :: b.garbage(n, i) == 0
    ensures var at := offset + total - 1;
            at < |d.flash| && Fails(b, d, offset, total, at, Another(0, d.flash[at], ByteOf(d.bank1, at)), total - WORD)
  {
    hide Ready, WriteAt, Another, Sound, Lost;
    SizeKept(b, d);
    LastWord(total);
    var at := offset + total - 1;
    var y := Another(0, d.flash[at], ByteOf(d.bank1, at));
    ByteLost(b, d, at, y);
    ReadyLost(b, d, offset, total, at, y);
    ReadyBank(b, d, offset, total, offset);
    assert Shut(b, Ready(b, d, offset, total), at, y);
  }

  lemma LastWord(total: nat)
    requires total != 0 && total % WORD == 0
    ensures WORD <= total && (total - WORD) % WORD == 0
  {
  }

  lemma ByteLost(b: Board, d: Device, at: int, y: Byte)
    requires Sound(b, d) && b.boundary <= at < |d.flash| && y != 0 && y != d.flash[at] && y != ByteOf(d.bank1, at)
    requires forall n, i :: b.garbage(n, i) == 0
    ensures Lost(b, d, at, y)
  {
  }

  lemma WholeWord(n: int, q: int)
    requires n == WORD * q
    ensures n % WORD == 0
  {
  }

  lemma WordAcross(from: nat, boundary: nat, total: nat)
    requires from < boundary < from + total && from % WORD != 0 && boundary % SECTOR == 0 && total % WORD == 0
    ensures var k := (boundary - from) / WORD * WORD;
            0 <= k && k % WORD == 0 && k + WORD <= total && from + k < boundary < from + k + WORD
  {
    var q, r := (boundary - from) / WORD, (boundary - from) % WORD;
    var t, m := total / WORD, boundary / SECTOR;
    assert boundary - from == WORD * q + r && boundary == WORD * (1024 * m) && total == WORD * t;
    if r == 0 {
      WholeWord(from, 1024 * m - q);
    }
    WholeWord(WORD * q, q);
    assert q < t;
  }

  lemma BanksAcross(b: Board, d: Device, offset: nat, total: nat)
    requires Sound(b, d) && !Writing(d) && Acceptable(b.size, offset, total)
    requires offset < b.boundary < offset + total && offset % WORD != 0 && forall n, i :: b.garbage(n, i) != 1
    ensures var k := (b.boundary - offset) / WORD * WORD;
            Fails(b, d, offset, total, offset + k, 1, k)
  {
    hide Ready, WriteAt;
    var k := (b.boundary - offset) / WORD * WORD;
    WordAcross(offset, b.boundary, total);
    ReadyIs(b, d, offset, total);
    assert Across(b, Ready(b, d, offset, total), offset, 0, k);
  }

  lemma AlignedBoundary(offset: nat, boundary: nat, total: nat)
    requires offset < boundary < offset + total && offset % WORD == 0 && boundary % SECTOR == 0 && total % WORD == 0
    ensures (boundary - offset) % WORD == 0 && boundary + WORD <= offset + total
  {
    var o, t, m := offset / WORD, total / WORD, boundary / SECTOR;
    assert boundary == WORD * (1024 * m) && offset == WORD * o && total == WORD * t;
    assert boundary - offset == WORD * (1024 * m - o);
    assert 1024 * m - o < t;
  }

  lemma OtherBankBusy(b: Board, d: Device, offset: nat, total: nat)
    requires Sound(b, d) && !Writing(d) && Acceptable(b.size, offset, total)
    requires offset < b.boundary < offset + total && offset % WORD == 0 && d.open1 && d.bank0.Nothing?
    requires d.bank1.Pending? && d.bank1.remaining >= 2 * total + 2
    requires (forall n, i :: b.garbage(n, i) != 1) && forall n :: b.timing(n) == 0
    ensures Fails(b, d, offset, total, b.boundary, 1, b.boundary - offset)
  {
    hide Ready;
    AlignedBoundary(offset, b.boundary, total);
    ReadyIs(b, d, offset, total);
    ReadyBank(b, d, offset, total, offset);
    ReadyBank(b, d, offset, total, b.boundary);
    assert WillMeet(b, Ready(b, d, offset, total), offset, 0, b.boundary - offset);
  }

  lemma RegionUsed(b: Board, d: Device, offset: nat, total: nat, i: nat, k: nat)
    requires Sound(b, d) && !Writing(d) && Acceptable(b.size, offset, total)
    requires FreeOver(b, d, offset, offset + total) && k <= i < k + WORD <= total && k % WORD == 0
    requires d.flash[offset + i] != ERASED && forall n, i :: b.garbage(n, i) == 0
    ensures Fails(b, d, offset, total, offset + i, Another(0, 0, d.flash[offset + i]), k)
  {
    hide Ready, WriteAt, Another, Sound, Used;
    SizeKept(b, d);
    ReadyFree(b, d, offset, total);
    var ready := Ready(b, d, offset, total);
    SizeKept(b, ready);
    assert ready.flash[offset + i] == ready.flash[offset..offset + total][i] == d.flash[offset..offset + total][i];
    ByteUsed(b, ready, offset, total, i, k, Another(0, 0, d.flash[offset + i]));
  }

  lemma ByteUsed(b: Board, d: Device, from: nat, total: nat, i: nat, k: nat, y: Byte)
    requires Sound(b, d) && FreeOver(b, d, from, from + total) && from + total <= b.size && k <= i < k + WORD <= total
    requires d.flash[from + i] != ERASED && d.flash[from + i] != y && y != 0
    requires forall n, i :: b.garbage(n, i) == 0
    ensures Used(b, d, from + i, y, from, 0, k)
  {
    assert Present(d, from + k)[i - k] == d.flash[from + i];
  }

  lemma WordHolds(i: nat, total: nat)
    requires i < total && total % WORD == 0
    ensures var k := i / WORD * WORD;
            0 <= k <= i < k + WORD <= total && k % WORD == 0
  {
    var q, t := i / WORD, total / WORD;
    assert total == WORD * t && q < t;
  }

  lemma NotErased(bytes: seq<Byte>) returns (i: nat)
    requires !AllErased(bytes)
    ensures i < |bytes| && bytes[i] != ERASED
  {
    i :| i < |bytes| && bytes[i] != ERASED;
  }

  lemma UnwritableFails(b: Board, d: Device, offset: nat, total: nat, polls: nat) returns (at: int, y: Byte, k: int)
    requires Sound(b, d) && !Writing(d) && Acceptable(b.size, offset, total) && !Writable(b, d, offset, offset + total)
    requires polls == 2 * total + 3
    ensures Sound(QuickBoard(b.size, b.boundary), Retimed(d, polls, polls))
    ensures Fails(QuickBoard(b.size, b.boundary), Retimed(d, polls, polls), offset, total, at, y, k)
  {
    hide Fails, Another;
    var slow, d' := QuickBoard(b.size, b.boundary), Retimed(d, polls, polls);
    RetimedSound(b, slow, d, polls, polls);
    hide Sound;
    if BankOf(b, d, offset).Pending? {
      OwnBankBusy(slow, d', offset, total, 1);
      at, y, k := offset, 1, 0;
    } else if offset < b.boundary < offset + total && !d.open1 {
      OtherBankShut(slow, d', offset, total);
      at := offset + total - 1;
      y, k := Another(0, d'.flash[at], ByteOf(d'.bank1, at)), total - WORD;
    } else if offset < b.boundary < offset + total && offset % WORD != 0 {
      BanksAcross(slow, d', offset, total);
      k := (b.boundary - offset) / WORD * WORD;
      at, y := offset + k, 1;
    } else if offset < b.boundary < offset + total && d.bank1.Pending? {
      OtherBankBusy(slow, d', offset, total);
      at, y, k := b.boundary, 1, b.boundary - offset;
    } else {
      var i := NotErased(d.flash[offset..offset + total]);
      WordHolds(i, total);
      RegionUsed(slow, d', offset, total, i, i / WORD * WORD);
      at, y, k := offset + i, Another(0, 0, d'.flash[offset + i]), i / WORD * WORD;
    }
  }

  lemma UnwritableLost(b: Board, d: Device, offset: nat, total: nat) returns (polls: nat, data: seq<Byte>)
    requires Sound(b, d) && !Writing(d) && Acceptable(b.size, offset, total) && !Writable(b, d, offset, offset + total)
    ensures |data| == total && Sound(QuickBoard(b.size, b.boundary), Retimed(d, polls, polls))
    ensures !Stores(QuickBoard(b.size, b.boundary), Retimed(d, polls, polls), data, offset)
  {
    hide Fails, Stores, Writable;
    polls := 2 * total + 3;
    var at, y, k := UnwritableFails(b, d, offset, total, polls);
    data := seq(total, _ => y);
    assert offset <= at < offset + total by {
      FailsWithin(QuickBoard(b.size, b.boundary), Retimed(d, polls, polls), offset, total, at, y, k);
    }
    FailsUnstored(QuickBoard(b.size, b.boundary), Retimed(d, polls, polls), data, offset, at, y, k);
  }

  lemma FailsWithin(b: Board, d: Device, offset: nat, total: nat, at: int, y: Byte, k: int)
    requires Sound(b, d) && !Writing(d) && Acceptable(b.size, offset, total) && Fails(b, d, offset, total, at, y, k)
    ensures offset <= at < offset + total
  {
  }

  lemma RetimedWritable(b: Board, b': Board, d: Device, polls0: nat, polls1: nat, from: int, to: int)
    requires 0 <= from <= to <= |d.flash| && b'.boundary == b.boundary
    ensures Writable(b', Retimed(d, polls0, polls1), from, to) == Writable(b, d, from, to)
  {
    hide AllErased;
  }

  /* ---- A write that finds another under way ---- */

  // The write the driver is at: the buffer it was begun with, its region, and how far it has come.
  datatype Underway = Underway(buffer: seq<Byte>, from: int, to: int, next: int)

  ghost predicate IsAt(b: Board, d: Device, u: Underway) {
    WriteAt(b, d, u.from, u.to, u.next) && u.to - u.from <= |u.buffer|
  }

  // Only an idle driver looks at what it is asked for.
  lemma Unread(b: Board, d: Device, word: seq<Byte>, offset: int, total: int, offset': int, total': int)
    requires Sound(b, d) && d.state != Idle && (d.state == WriteProgram ==> |word| == WORD)
    ensures WriteStep(b, d, word, offset, total) == WriteStep(b, d, word, offset', total')
  {
    PassedControl(b, d);
    hide Passed;
  }

  lemma NextUnderway(b: Board, d: Device, u: Underway, offset: int, total: int)
    requires IsAt(b, d, u)
    ensures Sound(b, d) && (d.state == WriteProgram ==> 0 <= u.next && u.next + WORD <= |u.buffer|)
    ensures var (d', done, ok) := WriteStep(b, d, WordOf(d, u.buffer, u.next), offset, total);
            && ok && Sound(b, d')
            && (if done then d'.state == Idle
                else IsAt(b, d', u.(next := NextWord(d, u.next))) && WriteCloser(b, d, d'))
  {
    hide WriteStep, WriteAt;
    WriteAtFacts(b, d, u.from, u.to, u.next);
    WriteMoves(b, d, WordOf(d, u.buffer, u.next), u.from, u.to, u.next, offset, total);
  }

  // Polls of a write of some region until one says it is done, when the driver is at a write.
  ghost function Polled(b: Board, d: Device, u: Underway, offset: int, total: int): Device
    requires IsAt(b, d, u)
    decreases WriteRank(b, d), Waiting(b, d)
  {
    NextUnderway(b, d, u, offset, total);
    var (d', done, ok) := WriteStep(b, d, WordOf(d, u.buffer, u.next), offset, total);
    if done then d' else Polled(b, d', u.(next := NextWord(d, u.next)), offset, total)
  }

  /** They finish that one, whatever is asked for. */
  lemma {:induction false} PolledFinishes(b: Board, d: Device, u: Underway, offset: int, total: int)
    requires IsAt(b, d, u)
    ensures Polled(b, d, u, offset, total) == WriteAll(b, d, u.buffer, u.from, u.to, u.next)
    decreases WriteRank(b, d), Waiting(b, d)
  {
    NextUnderway(b, d, u, offset, total);
    WriteAtFacts(b, d, u.from, u.to, u.next);
    Unread(b, d, WordOf(d, u.buffer, u.next), offset, total, u.from, u.to - u.from);
    hide WriteStep, WriteAt;
    var (d', done, ok) := WriteStep(b, d, WordOf(d, u.buffer, u.next), offset, total);
    if !done {
      PolledFinishes(b, d', u.(next := NextWord(d, u.next)), offset, total);
    }
  }

  /** If that one goes well, its own buffer is stored, and nothing outside its own region has changed. */
  lemma {:induction false} PolledLeaves(b: Board, d: Device, u: Underway, offset: int, total: int)
    requires IsAt(b, d, u) && WriteGoing(b, d, u.buffer, u.from, u.to, u.next) && Within(d, u.from, u.to)
    ensures var after := Polled(b, d, u, offset, total);
            && 0 <= u.from <= u.to <= |after.flash| && after.flash[u.from..u.to] == u.buffer[..u.to - u.from]
            && SameOutside(after.flash, d.flash, u.from, u.to)
    decreases WriteRank(b, d), Waiting(b, d)
  {
    hide WriteStep, WriteAt, WriteGoing, Within, SameOutside;
    NextUnderway(b, d, u, offset, total);
    var word := WordOf(d, u.buffer, u.next);
    WriteOn(b, d, word, u.buffer, u.from, u.to, u.next, offset, total);
    var (d', done, ok) := WriteStep(b, d, word, offset, total);
    if !done {
      PolledLeaves(b, d', u.(next := NextWord(d, u.next)), offset, total);
      SameChain(Polled(b, d, u, offset, total).flash, d'.flash, d.flash, u.from, u.to);
    }
  }

  /* ---- Every start ---- */

  // Polls of a write of the data until one says it is done, whatever the driver and the hardware were at.
  ghost function WriteAsked(b: Board, d: Device, u: Underway, data: seq<Byte>, offset: nat): Device
    requires Sound(b, d) && (Writing(d) ==> IsAt(b, d, u)) && Acceptable(b.size, offset, |data|)
  {
    if Writing(d) then Polled(b, d, u, offset, |data|) else WriteFrom(b, d, data, offset)
  }

  ghost predicate Stored(b: Board, d: Device, u: Underway, data: seq<Byte>, offset: nat)
    requires Sound(b, d) && (Writing(d) ==> IsAt(b, d, u)) && Acceptable(b.size, offset, |data|)
  {
    var after := WriteAsked(b, d, u, data, offset);
    |after.flash| == b.size && after.flash[offset..offset + |data|] == data
  }

  // Since they do not look at the data, there are some that they do not store.
  lemma UnreadLost(b: Board, d: Device, u: Underway, offset: nat, total: nat) returns (data: seq<Byte>)
    requires Sound(b, d) && Writing(d) && IsAt(b, d, u) && Acceptable(b.size, offset, total)
    ensures |data| == total && !Stored(b, d, u, data, offset)
  {
    hide Polled, IsAt;
    var flash := Polled(b, d, u, offset, total).flash;
    var y := if offset < |flash| && flash[offset] == 0 then 1 else 0;
    data := seq(total, _ => y);
    assert |flash| == b.size ==> flash[offset..offset + total][0] == flash[offset];
  }

  lemma RetimedSame(d: Device) returns (polls0: nat, polls1: nat)
    ensures Retimed(d, polls0, polls1) == d
  {
    polls0 := if d.bank0.Pending? then d.bank0.remaining else 0;
    polls1 := if d.bank1.Pending? then d.bank1.remaining else 0;
  }

  /** Polled until it says it is done, from whatever state of the driver and the hardware, a write has stored its
      data, for all data, all times commands take and all that is left where nothing is promised, exactly if the
      driver is not at another write, the region is erased, no command is pending in the banks the region lies in,
      and, should it go on from the first bank to the second, that one is unlocked and no word lies across both. */
  lemma WriteExact(b: Board, d: Device, u: Underway, offset: nat, total: nat)
    requires Sound(b, d) && (Writing(d) ==> IsAt(b, d, u)) && Acceptable(b.size, offset, total)
    ensures (forall b': Board, polls0: nat, polls1: nat, data: seq<Byte> ::
               b'.size == b.size && b'.boundary == b.boundary && |data| == total ==>
                 var d' := Retimed(d, polls0, polls1);
                 Sound(b', d') && (Writing(d') ==> IsAt(b', d', u)) && Stored(b', d', u, data, offset))
            <==> !Writing(d) && Writable(b, d, offset, offset + total)
  {
    hide Stores, Writable, IsAt;
    if Writing(d) {
      var data := UnreadLost(b, d, u, offset, total);
      var polls0, polls1 := RetimedSame(d);
      assert !Stored(b, Retimed(d, polls0, polls1), u, data, offset);
    } else if Writable(b, d, offset, offset + total) {
      forall b': Board, polls0: nat, polls1: nat, data: seq<Byte>
        | b'.size == b.size && b'.boundary == b.boundary && |data| == total
        ensures Sound(b', Retimed(d, polls0, polls1)) && Stored(b', Retimed(d, polls0, polls1), u, data, offset)
      {
        RetimedSound(b, b', d, polls0, polls1);
        RetimedWritable(b, b', d, polls0, polls1, offset, offset + total);
        WritableStores(b', Retimed(d, polls0, polls1), data, offset);
        StoresStored(b', Retimed(d, polls0, polls1), u, data, offset);
      }
    } else {
      var polls, data := UnwritableLost(b, d, offset, total);
      StoresStored(QuickBoard(b.size, b.boundary), Retimed(d, polls, polls), u, data, offset);
    }
  }

  lemma StoresStored(b: Board, d: Device, u: Underway, data: seq<Byte>, offset: nat)
    requires Sound(b, d) && !Writing(d) && Acceptable(b.size, offset, |data|)
    ensures Stored(b, d, u, data, offset) <==> Stores(b, d, data, offset)
  {
  }

  /* ---- Starts that the driver itself brings about ---- */

  // Three polls of an erase of the second sector, on a device fresh from reset.
  function SectorAsked(b: Board, image: seq<Byte>): Device
    requires |image| == b.size && b.boundary % SECTOR == 0 && 2 * SECTOR <= b.size < Min(b.boundary, UINT32)
  {
    var d := Device(Idle, 0, 0, image, Nothing, Nothing, false, false, 0);
    var d1 := EraseStep(b, d, SECTOR, SECTOR).0;
    var d2 := EraseStep(b, d1, SECTOR, SECTOR).0;
    EraseStep(b, d2, SECTOR, SECTOR).0
  }

  lemma SectorAskedIs(b: Board, image: seq<Byte>)
    requires |image| == b.size && b.boundary % SECTOR == 0 && 2 * SECTOR <= b.size < Min(b.boundary, UINT32)
    ensures var d := SectorAsked(b, image);
            && Sound(b, d) && d.state == EraseBusy && d.flash == image && d.bank0.Pending?
            && d.bank0.remaining == b.timing(0)
  {
  }

  /** A write to the first sector, erased, that finds the driver at an erase of the second does not wait for it: for
      every board with one bank whose first command takes three polls or more, and that leaves anything else than the
      data where nothing is promised, the write says it is done and has not stored its first byte. */
  lemma WriteWhileErasing(b: Board, image: seq<Byte>, data: seq<Byte>)
    requires |image| == b.size && b.boundary % SECTOR == 0 && 2 * SECTOR <= b.size < Min(b.boundary, UINT32)
    requires AllErased(image) && Acceptable(b.size, 0, |data|)
    requires b.timing(0) > 2 && forall n, i :: b.garbage(n, i) != data[0]
    ensures Sound(b, SectorAsked(b, image)) && !Writing(SectorAsked(b, image))
    ensures !Stores(b, SectorAsked(b, image), data, 0)
  {
    hide Fails, SectorAsked, Stores;
    SectorAskedIs(b, image);
    OwnBankBusy(b, SectorAsked(b, image), 0, |data|, data[0]);
    FailsUnstored(b, SectorAsked(b, image), data, 0, 0, data[0], 0);
  }

  // One poll of a write of the first bytes, on a device fresh from reset.
  function WriteTaken(b: Board, image: seq<Byte>, other: seq<Byte>): Device
    requires |image| == b.size && b.boundary % SECTOR == 0 && 2 * SECTOR <= b.size < Min(b.boundary, UINT32)
  {
    WriteStep(b, Device(Idle, 0, 0, image, Nothing, Nothing, false, false, 0), [], 0, |other|).0
  }

  lemma WriteTakenIs(b: Board, image: seq<Byte>, other: seq<Byte>)
    requires |image| == b.size && b.boundary % SECTOR == 0 && 2 * SECTOR <= b.size < Min(b.boundary, UINT32)
    requires AllErased(image) && |other| <= SECTOR && Acceptable(b.size, 0, |other|)
    ensures var d := WriteTaken(b, image, other);
            && Sound(b, d) && d.state == WriteProgram && d.flash == image && Quiet(d)
            && WriteAt(b, d, 0, |other|, 0) && Open(b, d, 0)
  {
  }

  /** A write to the second sector, erased, that finds the driver at a write of the first: no command is pending and
      the region is writable, and yet the write says it is done and its region is as erased as it was, while the other
      one is stored. */
  lemma WriteWhileWriting(b: Board, image: seq<Byte>, other: seq<Byte>, data: seq<Byte>)
    requires |image| == b.size && b.boundary % SECTOR == 0 && 2 * SECTOR <= b.size < Min(b.boundary, UINT32)
    requires AllErased(image) && |other| <= SECTOR && Acceptable(b.size, 0, |other|)
    requires Acceptable(b.size, SECTOR, |data|)
    ensures var d, u := WriteTaken(b, image, other), Underway(other, 0, |other|, 0);
            && Sound(b, d) && IsAt(b, d, u) && Quiet(d) && d.flash == image
            && Writable(b, d, SECTOR, SECTOR + |data|)
            && var after := WriteAsked(b, d, u, data, SECTOR);
               && SECTOR + |data| <= |after.flash| && AllErased(after.flash[SECTOR..SECTOR + |data|])
               && after.flash[..|other|] == other
  {
    hide WriteTaken, WriteAt, Polled;
    var d, u := WriteTaken(b, image, other), Underway(other, 0, |other|, 0);
    WriteTakenIs(b, image, other);
    assert AllErased(image[0..|other|]) && AllErased(image[SECTOR..SECTOR + |data|]);
    WriteBeginsGoing(b, d, other, 0, |other|);
    NothingWithin(d, 0, |other|);
    hide WriteGoing, Sound;
    PolledLeaves(b, d, u, SECTOR, |data|);
    var after := Polled(b, d, u, SECTOR, |data|);
    assert other[..|other|] == other;
    assert after.flash[SECTOR..SECTOR + |data|] == image[SECTOR..SECTOR + |data|];
  }
}
