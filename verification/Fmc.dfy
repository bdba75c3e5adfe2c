/** The polled flash driver of lib-gd32/src/f/fmc/gd32_fmc.cpp, which lib-flashcode forwards to.

    Every call of Erase or Write is one poll: it advances the driver's state machine by one step
    and says whether the whole operation has ended. The driver unlocks only the bank an operation
    begins in. */
module Fmc {

  import opened FlashBoard
  import opened Machine

  /* ---- Erasing ---- */

  // Where an erase over [_, to) may stand: on a page boundary of the bank it is in.
  ghost predicate OnPage(address: int, to: int, boundary: int) {
    && address % BANK0_PAGE == 0 && to % SECTOR == 0 && boundary % SECTOR == 0
    && (address >= boundary ==> address % BANK1_PAGE == 0)
  }

  function Page(address: int, boundary: int): nat {
    if address < boundary then BANK0_PAGE else BANK1_PAGE
  }

  lemma NextPage(address: int, to: int, boundary: int)
    requires 0 <= address < to && OnPage(address, to, boundary)
    ensures address + Page(address, boundary) <= to
    ensures OnPage(address + Page(address, boundary), to, boundary)
    ensures address < boundary ==> address + Page(address, boundary) <= boundary
  {
    var a, t, b := address / BANK0_PAGE, to / SECTOR, boundary / SECTOR;
    assert address == BANK0_PAGE * a && to == BANK0_PAGE * (2 * t) && boundary == BANK0_PAGE * (2 * b);
    if address < boundary {
      assert address + BANK0_PAGE == BANK0_PAGE * (a + 1);
      assert a + 1 <= 2 * t && a + 1 <= 2 * b;
    } else {
      var c := address / BANK1_PAGE;
      assert address == BANK1_PAGE * c && address + BANK1_PAGE == BANK1_PAGE * (c + 1);
      assert address + BANK1_PAGE == BANK0_PAGE * (a + 2);
    }
  }

  lemma SectorOnPage(offset: int, total: int, boundary: int)
    requires offset % SECTOR == 0 && total % SECTOR == 0 && boundary % SECTOR == 0
    ensures OnPage(offset, offset + total, boundary)
  {
  }

  predicate Erasing(d: Device) {
    d.state == EraseBusy || d.state == EraseProgram
  }

  predicate Writing(d: Device) {
    d.state == WriteBusy || d.state == WriteProgram
  }

  // The erase begun for [from, to) has got as far as its address.
  ghost predicate EraseAt(b: Board, d: Device, from: int, to: int) {
    && Sound(b, d) && Erasing(d)
    && 0 <= from <= d.address && 0 <= d.length && d.address + d.length == to <= b.size
    && OnPage(d.address, to, b.boundary) && Open(b, d, from)
    && AllErased(Target(b, d)[from..Limit(b, d, from, d.address)])
    && (d.state == EraseProgram ==> 0 < d.length && !Busy(b, d, d.address))
  }

  lemma EraseAtSound(b: Board, d: Device, from: int, to: int)
    requires EraseAt(b, d, from, to)
    ensures Sound(b, d) && Erasing(d) && 0 <= from <= to <= b.size && 0 <= d.length
    ensures d.state == EraseProgram ==> 0 < d.length
  {
  }

  // The device once the next page has been asked for.
  function PageAsked(b: Board, d: Device): Device {
    var page := Page(d.address, b.boundary);
    Issued(b, d, d.address, ErasedPage(b, d.address)).(state := EraseBusy, address := d.address + page,
                                          length := Wrap(d.length - page))
  }

  // One poll of Erase.
  function EraseStep(b: Board, before: Device, offset: int, total: int): (Device, bool)
    requires Sound(b, before)
  {
    var d := Passed(b, before);
    match d.state
    case Idle => (Unlocked(b, d, offset).(state := EraseBusy, address := offset, length := total), false)
    case EraseBusy =>
      if Busy(b, d, d.address) then (d, false)
      else if d.length == 0 then (Locked(b, d, d.address).(state := Idle), true)
      else (d.(state := EraseProgram), false)
    case EraseProgram =>
      if d.length > 0 then (PageAsked(b, d), false) else (d.(state := EraseBusy), false)
    case _ => (d.(state := Idle), false)
  }

  // The bank of an address is at a command that this poll's time does not end.
  predicate StillBusy(b: Board, d: Device, address: int) {
    var c := if address < b.boundary then d.bank0 else d.bank1;
    c.Pending? && c.remaining > 0
  }

  /** What each poll of an erase does to the driver's variables and to the locks of the banks. */
  lemma ErasePoll(b: Board, before: Device, offset: int, total: int)
    requires Sound(b, before)
    ensures var (d, done) := EraseStep(b, before, offset, total);
            var busy := StillBusy(b, before, before.address);
            var page := if before.address < b.boundary then 2048 else 4096;
            && d.state == (match before.state
                           case Idle => EraseBusy
                           case EraseBusy =>
                             if busy then EraseBusy else if before.length == 0 then Idle else EraseProgram
                           case EraseProgram => EraseBusy
                           case WriteBusy => Idle
                           case WriteProgram => Idle)
            && done == (before.state == EraseBusy && !busy && before.length == 0)
            && (d.address, d.length)
               == (if before.state == Idle then (offset, total)
                   else if before.state == EraseProgram && before.length > 0 then
                     (before.address + page, (before.length - page) % 0x1_0000_0000)
                   else (before.address, before.length))
            && d.open0 == (if before.state == Idle && offset < b.boundary then true
                           else if done && before.address < b.boundary then false else before.open0)
            && d.open1 == (if before.state == Idle && offset >= b.boundary then true
                           else if done && before.address >= b.boundary then false else before.open1)
  {
    hide Passed, ErasedPage, Landed;
    PassedControl(b, before);
    PassedBusy(b, before);
    hide Sound, StillBusy;
  }

  lemma PassedBusy(b: Board, d: Device)
    requires Sound(b, d)
    ensures Busy(b, Passed(b, d), d.address) == StillBusy(b, d, d.address)
  {
    hide Landed;
  }

  // How far an erase, or a write, is from its end; the polls spent waiting for a bank are counted apart.
  ghost function EraseRank(b: Board, d: Device): int {
    match d.state
    case EraseBusy => 2 * d.length + 1
    case EraseProgram => 2 * d.length
    case Idle => 2 * b.size + 2
    case _ => 2 * b.size + 3
  }

  // A poll that is not the last has brought the operation closer to its end.
  ghost predicate EraseCloser(b: Board, before: Device, d: Device) {
    && 0 <= EraseRank(b, before)
    && (EraseRank(b, d) < EraseRank(b, before)
        || (EraseRank(b, d) == EraseRank(b, before) && Waiting(b, d) < Waiting(b, before)))
  }

  lemma PageErased(before: seq<Byte>, after: seq<Byte>, page: seq<Byte>, from: int, address: int, to: int)
    requires 0 <= from <= address && address + |page| <= to <= |before| && AllErased(page)
    requires AllErased(before[from..address]) && after == Put(before, address, page)
    ensures AllErased(after[from..address + |page|]) && SameOutside(after, before, from, to)
  {
    PutAt(before, address, page);
    hide Put;
    var image := after[from..address + |page|];
    forall i | 0 <= i < |image|
      ensures image[i] == ERASED
    {
      if from + i < address {
        assert before[from..address][i] == ERASED;
      }
    }
  }

  lemma EraseProgramStep(b: Board, d: Device, from: int, to: int)
    requires EraseAt(b, d, from, to) && d.state == EraseProgram
    ensures EraseAt(b, PageAsked(b, d), from, to) && PageAsked(b, d).open1 == d.open1
    ensures SameOutside(Target(b, PageAsked(b, d)), Target(b, d), from, Limit(b, d, from, to))
  {
    NextPage(d.address, to, b.boundary);
    IssuedTarget(b, d, d.address, ErasedPage(b, d.address));
    var d' := Issued(b, d, d.address, ErasedPage(b, d.address));
    hide Target, OnPage, Put;
    Unchanged(Target(b, d), from, Limit(b, d, from, to));
    if Open(b, d, d.address) {
      PageErased(Target(b, d), Target(b, d'), ErasedPage(b, d.address), from, d.address, Limit(b, d, from, to));
    }
    hide AllErased, SameOutside;
    SameTarget(b, d', PageAsked(b, d));
  }

  lemma PassedEraseAt(b: Board, before: Device, from: int, to: int)
    requires EraseAt(b, before, from, to)
    ensures EraseAt(b, Passed(b, before), from, to) && Target(b, Passed(b, before)) == Target(b, before)
  {
    PassedTarget(b, before);
    PassedControl(b, before);
    hide Passed, Target, OnPage, AllErased, Sound;
  }

  lemma EraseBusyStep(b: Board, d: Device, from: int, to: int)
    requires EraseAt(b, d, from, to) && d.state == EraseBusy && !Busy(b, d, d.address)
    ensures d.length == 0 ==>
              var d' := Locked(b, d, d.address).(state := Idle);
              && Sound(b, d') && Target(b, d') == Target(b, d) && !Busy(b, d', to)
              && from <= Limit(b, d, from, to) <= to <= |Target(b, d)|
              && AllErased(Target(b, d)[from..Limit(b, d, from, to)])
    ensures d.length != 0 ==>
              var d' := d.(state := EraseProgram);
              EraseAt(b, d', from, to) && Target(b, d') == Target(b, d)
  {
    SameTarget(b, d, d.(state := EraseProgram));
    SameTarget(b, d, Locked(b, d, d.address).(state := Idle));
    hide Target, OnPage, AllErased, Sound;
  }

  /** Every poll takes an erase under way a step on, over the region it was begun for, whatever region is
      asked for now; at its end that region will be erased, as far as the driver has unlocked it, and the bank
      behind its end is free. */
  lemma EraseAdvances(b: Board, before: Device, from: int, to: int, offset: int, total: int)
    requires EraseAt(b, before, from, to)
    ensures var (d, done) := EraseStep(b, before, offset, total);
            var limit := Limit(b, before, from, to);
            && Sound(b, d) && SameOutside(Target(b, d), Target(b, before), from, limit)
            && (if done then
                  && d.state == Idle && !Busy(b, d, to)
                  && from <= limit <= to <= b.size && AllErased(Target(b, d)[from..limit])
                else EraseAt(b, d, from, to) && Limit(b, d, from, to) == limit)
  {
    hide Target, OnPage, AllErased, Sound, EraseAt, Passed, Issued, SameOutside, Page, ErasedPage, Locked;
    EraseAtSound(b, before, from, to);
    PassedEraseAt(b, before, from, to);
    PassedControl(b, before);
    var d := Passed(b, before);
    EraseAtSound(b, d, from, to);
    Unchanged(Target(b, before), from, Limit(b, before, from, to));
    if before.state == EraseProgram {
      EraseProgramStep(b, d, from, to);
      EraseAtSound(b, PageAsked(b, d), from, to);
    } else if !Busy(b, d, d.address) {
      EraseBusyStep(b, d, from, to);
      if d.length != 0 {
        EraseAtSound(b, d.(state := EraseProgram), from, to);
      }
    }
  }

  /** ... and nearer to its end. */
  lemma EraseNearer(b: Board, before: Device, from: int, to: int, offset: int, total: int)
    requires EraseAt(b, before, from, to)
    ensures var (d, done) := EraseStep(b, before, offset, total);
            0 <= EraseRank(b, before)
            && (!done ==> EraseCloser(b, before, d))
  {
    hide Target, AllErased, Passed;
    PassedControl(b, before);
    if before.state == EraseProgram {
      NextPage(before.address, to, b.boundary);
      NoWrap(before.length - Page(before.address, b.boundary));
    }
    hide OnPage;
  }

  lemma EraseWithin(b: Board, before: Device, from: int, to: int, offset: int, total: int, lo: int, hi: int)
    requires EraseAt(b, before, from, to) && Within(before, lo, hi) && lo <= from && to <= hi
    ensures Within(EraseStep(b, before, offset, total).0, lo, hi)
  {
    PassedWithin(b, before, lo, hi);
    PassedControl(b, before);
    hide Target, AllErased, Passed;
    if before.state == EraseProgram {
      NextPage(before.address, to, b.boundary);
    }
    hide OnPage;
  }

  // A count of bytes that no whole number of pages uses up.
  predicate Uneven(length: int) {
    length % BANK0_PAGE != 0
  }

  lemma StaysUneven(length: int, page: nat)
    requires Uneven(length) && (page == BANK0_PAGE || page == BANK1_PAGE)
    ensures Uneven(Wrap(length - page))
  {
    var rest, q := length - page, (length - page) / UINT32;
    var k, r := length / BANK0_PAGE, length % BANK0_PAGE;
    var pages := page / BANK0_PAGE;
    assert Wrap(rest) == rest - UINT32 * q && length == BANK0_PAGE * k + r && page == BANK0_PAGE * pages;
    assert Wrap(rest) == BANK0_PAGE * (k - pages - UINT32 / BANK0_PAGE * q) + r;
    Unique(Wrap(rest), BANK0_PAGE, k - pages - UINT32 / BANK0_PAGE * q, r);
  }

  /** The count is unsigned: if it is not whole pages it passes by 0, again and again, and no poll of the erase ever
      says that it is done. */
  lemma EraseUneven(b: Board, before: Device, offset: int, total: int)
    requires Sound(b, before)
    requires if Erasing(before) then Uneven(before.length) else before.state == Idle && Uneven(total)
    ensures var (d, done) := EraseStep(b, before, offset, total);
            !done && Sound(b, d) && Erasing(d) && Uneven(d.length)
  {
    hide Passed, Issued, Blank, ErasedPage;
    PassedTarget(b, before);
    PassedControl(b, before);
    var d := Passed(b, before);
    var page := Page(d.address, b.boundary);
    if Erasing(before) {
      StaysUneven(d.length, page);
    }
    SameTarget(b, d, Unlocked(b, d, offset).(state := EraseBusy, address := offset, length := total));
    if before.state == EraseProgram && d.length > 0 {
      IssuedSound(b, d, d.address, ErasedPage(b, d.address));
      SameTarget(b, Issued(b, d, d.address, ErasedPage(b, d.address)), PageAsked(b, d));
    }
    SameTarget(b, d, d.(state := EraseProgram));
    SameTarget(b, d, d.(state := EraseBusy));
    hide Sound, Target;
  }

  // The first poll begins an erase, unless it ends a write.
  lemma EraseBegins(b: Board, before: Device, offset: int, total: int)
    requires Sound(b, before) && !Erasing(before)
    requires 0 <= offset && 0 <= total && offset % SECTOR == 0 && total % SECTOR == 0 && offset + total <= b.size
    ensures var (d, done) := EraseStep(b, before, offset, total);
            && !done && Sound(b, d) && Target(b, d) == Target(b, before)
            && (if before.state == Idle then EraseAt(b, d, offset, offset + total) else d.state == Idle)
            && Limit(b, d, offset, offset + total) == Limit(b, before, offset, offset + total)
            && EraseCloser(b, before, d)
  {
    hide Passed, Landed, Put, Issued;
    PassedTarget(b, before);
    PassedControl(b, before);
    SectorOnPage(offset, total, b.boundary);
    var d := Passed(b, before);
    SameTarget(b, d, Unlocked(b, d, offset).(state := EraseBusy, length := total, address := offset));
    SameTarget(b, d, d.(state := Idle));
    hide Target, OnPage;
  }

  lemma EraseBeginsWithin(b: Board, before: Device, offset: int, total: int, lo: int, hi: int)
    requires Sound(b, before) && !Erasing(before) && Within(before, lo, hi)
    ensures Within(EraseStep(b, before, offset, total).0, lo, hi)
  {
    PassedWithin(b, before, lo, hi);
    hide Passed;
  }

  // A region that starts in the first bank and reaches that bank's end: behind it the driver asks the
  // second bank, not the one that erased the last page of the first.
  predicate Reaches(boundary: int, from: int, to: int) {
    from < boundary <= to
  }

  lemma DoneQuiet(b: Board, d: Device, from: int, to: int)
    requires Sound(b, d) && Within(d, from, to) && !Busy(b, d, to) && from <= to && !Reaches(b.boundary, from, to)
    ensures Quiet(d)
  {
  }

  /* ---- Writing ---- */

  // The buffers the driver takes; anything else is an error at once.
  predicate Acceptable(size: int, offset: int, total: int) {
    total != 0 && total % WORD == 0 && offset < size && total <= size - offset
  }

  // No word of the region lies across both banks.
  predicate NoStraddle(boundary: int, from: int, to: int) {
    from % WORD == 0 || to <= boundary || boundary <= from
  }

  // The region [from, to) starts with the first k bytes of the data and is erased after them.
  ghost predicate Programmed(image: seq<Byte>, data: seq<Byte>, from: int, k: int, to: int) {
    && 0 <= from && 0 <= k <= |data| && from + k <= to <= |image|
    && image[from..from + k] == data[..k] && AllErased(image[from + k..to])
  }

  lemma ProgrammedEnds(image: seq<Byte>, data: seq<Byte>, from: int, to: int)
    requires 0 <= from <= to <= |image| && to - from <= |data|
    ensures AllErased(image[from..to]) ==> Programmed(image, data, from, 0, to)
    ensures Programmed(image, data, from, to - from, to) ==> image[from..to] == data[..to - from]
  {
  }

  lemma WordAdded(before: seq<Byte>, data: seq<Byte>, from: int, k: int, to: int)
    requires Programmed(before, data, from, k, to) && from + k + WORD <= to && k + WORD <= |data|
    ensures Programmed(Put(before, from + k, data[k..k + WORD]), data, from, k + WORD, to)
    ensures SameOutside(Put(before, from + k, data[k..k + WORD]), before, from, to)
    ensures before[from + k..from + k + WORD] == Blank(WORD)
  {
    hide Put, Blank, SameOutside, AllErased;
    var m := k + WORD;
    var after := Put(before, from + k, data[k..m]);
    PutRegion(before, from + k, data[k..m], from + k, from + m);
    PutRegion(before, from + k, data[k..m], from, to);
    PrefixGrows(before, after, data, from, k, m);
    RestStays(before, after, from + k, from + m, to);
    assert |before[from + k..from + m]| == WORD;
    ErasedWord(before[from + k..from + m]);
  }

  lemma PrefixGrows(before: seq<Byte>, after: seq<Byte>, data: seq<Byte>, from: int, k: int, m: int)
    requires 0 <= from && 0 <= k <= m <= |data| && from + m <= |before| == |after|
    requires before[from..from + k] == data[..k] && SameOutside(after, before, from + k, from + m)
    requires after[from + k..from + m] == data[k..m]
    ensures after[from..from + m] == data[..m]
  {
    assert after[from..from + k] == before[from..from + k];
    assert after[from..from + m] == after[from..from + k] + after[from + k..from + m];
  }

  lemma RestStays(before: seq<Byte>, after: seq<Byte>, lo: int, mid: int, to: int)
    requires 0 <= lo <= mid <= to <= |before| == |after|
    requires AllErased(before[lo..to]) && SameOutside(after, before, lo, mid)
    ensures AllErased(before[lo..mid]) && AllErased(after[mid..to])
  {
    assert before[lo..mid] == before[lo..to][..mid - lo];
    assert after[mid..to] == before[lo..to][mid - lo..];
  }

  // Where a write begun for [from, to) stands when the next word is the one at next.
  ghost predicate WriteAt(b: Board, d: Device, from: int, to: int, next: int) {
    && Sound(b, d) && Writing(d)
    && 0 <= from && to <= b.size && 0 <= next && 0 <= d.length && next + d.length == to - from
    && next % WORD == 0 && d.length % WORD == 0
    && (d.state == WriteProgram ==> d.address == from + next && 0 < d.length)
    && (d.state == WriteBusy ==> d.address + WORD == from + next && WORD <= next)
  }

  // A command, if there is one, that programs the word at an address.
  predicate OnlyAt(c: Command, at: int) {
    c.Pending? ==> c.at == at && |c.bytes| == WORD
  }

  // ... and has so far put down that much of the data over erased bytes, with no other command about in the banks
  // the region lies in.
  ghost predicate WriteGoing(b: Board, d: Device, data: seq<Byte>, from: int, to: int, next: int)
    requires WriteAt(b, d, from, to, next)
  {
    && to - from <= |data| && NoStraddle(b.boundary, from, to)
    && Open(b, d, from) && Limit(b, d, from, to) == to
    && Programmed(Target(b, d), data, from, next, to)
    && (if d.state == WriteProgram then FreeOver(b, d, from, to)
        else
          && OnlyAt(BankOf(b, d, d.address), d.address)
          && (if d.address < b.boundary then b.boundary < to ==> d.bank1.Nothing?
              else from < b.boundary ==> d.bank0.Nothing?))
  }

  // The word in the flash at an address.
  function Present(d: Device, at: int): seq<Byte> {
    if 0 <= at && at + WORD <= |d.flash| then d.flash[at..at + WORD] else []
  }

  // The device once a word has been programmed.
  function WordAsked(b: Board, d: Device, word: seq<Byte>): Device
    requires |word| == WORD
  {
    var bytes := WordOver(b, d.issued, Present(d, d.address), word);
    Issued(b, d, d.address, bytes).(state := WriteBusy, length := d.length - WORD)
  }

  // One poll of Write; the word is the one the driver has come to in its buffer.
  function WriteStep(b: Board, before: Device, word: seq<Byte>, offset: int, total: int): (Device, bool, bool)
    requires Sound(b, before)
    requires before.state == WriteProgram ==> |word| == WORD
  {
    var d := Passed(b, before);
    match d.state
    case Idle =>
      if !Acceptable(b.size, offset, total) then (d, true, false)
      else (Unlocked(b, d, offset).(state := WriteProgram, address := offset, length := total), false, true)
    case WriteBusy =>
      if Busy(b, d, d.address) then (d, false, true)
      else if d.length == 0 then (Locked(b, d, d.address).(state := Idle), true, true)
      else (d.(state := WriteProgram, address := d.address + WORD), false, true)
    case WriteProgram =>
      (WordAsked(b, d, word), false, true)
    case _ => (d.(state := Idle), false, true)
  }

  /** What each poll of a write does to the driver's variables and to the locks of the banks. */
  lemma WritePoll(b: Board, before: Device, word: seq<Byte>, offset: int, total: int)
    requires Sound(b, before) && (before.state == WriteProgram ==> |word| == WORD)
    ensures var (d, done, ok) := WriteStep(b, before, word, offset, total);
            var busy := StillBusy(b, before, before.address);
            var refused := before.state == Idle
                           && (total == 0 || total % 4 != 0 || offset >= b.size || total > b.size - offset);
            && d.state == (match before.state
                           case Idle => if refused then Idle else WriteProgram
                           case WriteBusy =>
                             if busy then WriteBusy else if before.length == 0 then Idle else WriteProgram
                           case WriteProgram => WriteBusy
                           case EraseBusy => Idle
                           case EraseProgram => Idle)
            && ok == !refused && done == (refused || (before.state == WriteBusy && !busy && before.length == 0))
            && (d.address, d.length)
               == (if before.state == Idle && !refused then (offset, total)
                   else if before.state == WriteProgram then (before.address, before.length - 4)
                   else if before.state == WriteBusy && d.state == WriteProgram then (before.address + 4, before.length)
                   else (before.address, before.length))
            && d.open0 == (if before.state == Idle && !refused && offset < b.boundary then true
                           else if done && !refused && before.address < b.boundary then false else before.open0)
            && d.open1 == (if before.state == Idle && !refused && offset >= b.boundary then true
                           else if done && !refused && before.address >= b.boundary then false else before.open1)
  {
    hide Passed, Landed, WordOver;
    PassedControl(b, before);
    PassedBusy(b, before);
    hide Sound, StillBusy;
  }

  ghost function WriteRank(b: Board, d: Device): int {
    match d.state
    case WriteBusy => 2 * d.length + 1
    case WriteProgram => 2 * d.length
    case Idle => 2 * b.size + 2
    case _ => 2 * b.size + 3
  }

  ghost predicate WriteCloser(b: Board, before: Device, d: Device) {
    && 0 <= WriteRank(b, before)
    && (WriteRank(b, d) < WriteRank(b, before)
        || (WriteRank(b, d) == WriteRank(b, before) && Waiting(b, d) < Waiting(b, before)))
  }

  function NextWord(d: Device, next: int): int {
    if d.state == WriteProgram then next + WORD else next
  }

  lemma PassedWriteAt(b: Board, before: Device, from: int, to: int, next: int)
    requires WriteAt(b, before, from, to, next)
    ensures WriteAt(b, Passed(b, before), from, to, next)
  {
    PassedTarget(b, before);
    PassedControl(b, before);
    hide Passed, Sound;
  }

  lemma WriteAtProgrammed(b: Board, d: Device, d': Device, from: int, to: int, next: int)
    requires WriteAt(b, d, from, to, next) && d.state == WriteProgram && Sound(b, d')
    requires d'.state == WriteBusy && d'.length == d.length - WORD && d'.address == d.address
    ensures WriteAt(b, d', from, to, next + WORD)
  {
    hide Sound;
  }

  lemma WriteAtNext(b: Board, d: Device, from: int, to: int, next: int)
    requires WriteAt(b, d, from, to, next) && d.state == WriteBusy
    ensures d.length == 0 ==> next == to - from
    ensures d.length != 0 ==>
              0 < d.length && WriteAt(b, d.(state := WriteProgram, address := d.address + WORD), from, to, next)
  {
    SameTarget(b, d, d.(state := WriteProgram, address := d.address + WORD));
    hide Sound;
  }

  /** Every poll takes a write under way a step on and nearer its end. */
  lemma WriteMoves(b: Board, before: Device, word: seq<Byte>, from: int, to: int, next: int, offset: int, total: int)
    requires WriteAt(b, before, from, to, next) && (before.state == WriteProgram ==> |word| == WORD)
    ensures var (d, done, ok) := WriteStep(b, before, word, offset, total);
            && ok && Sound(b, d) && 0 <= WriteRank(b, before)
            && (if done then d.state == Idle && next == to - from && !Busy(b, d, before.address)
                else WriteAt(b, d, from, to, NextWord(before, next)))
            && (!done ==> WriteCloser(b, before, d))
  {
    hide Passed, Target, Landed, WordOver, Issued, Sound, Present, WriteAt;
    WriteAtFacts(b, before, from, to, next);
    PassedWriteAt(b, before, from, to, next);
    PassedControl(b, before);
    var d := Passed(b, before);
    WriteAtFacts(b, d, from, to, next);
    if before.state == WriteProgram {
      var bytes := WordOver(b, d.issued, Present(d, d.address), word);
      IssuedSound(b, d, d.address, bytes);
      IssuedControl(b, d, d.address, bytes);
      var d' := Issued(b, d, d.address, bytes);
      SameTarget(b, d', d'.(state := WriteBusy, length := d.length - WORD));
      WriteAtProgrammed(b, d, Issued(b, d, d.address, bytes).(state := WriteBusy, length := d.length - WORD), from, to,
          next);
    } else {
      SameTarget(b, d, Locked(b, d, d.address).(state := Idle));
      SameTarget(b, d, d.(state := WriteProgram, address := d.address + WORD));
      WriteAtNext(b, d, from, to, next);
    }
  }

  lemma SectorNoStraddle(boundary: int, from: int, to: int)
    requires from % SECTOR == 0
    ensures NoStraddle(boundary, from, to)
  {
    assert from == WORD * (1024 * (from / SECTOR));
  }

  lemma WordApart(b: Board, from: int, to: int, next: int)
    requires NoStraddle(b.boundary, from, to) && b.boundary % SECTOR == 0
    requires next % WORD == 0 && 0 <= next && from + next + WORD <= to
    ensures !(from + next < b.boundary < from + next + WORD)
  {
    if from % WORD == 0 {
      var f, n, m := from / WORD, next / WORD, b.boundary / SECTOR;
      assert from + next == WORD * (f + n) && b.boundary == WORD * (1024 * m);
    }
  }

  lemma WriteProgramStep(b: Board, d: Device, data: seq<Byte>, from: int, to: int, next: int)
    requires WriteAt(b, d, from, to, next) && WriteGoing(b, d, data, from, to, next) && d.state == WriteProgram
    ensures next + WORD <= |data|
    ensures var d' := WordAsked(b, d, data[next..next + WORD]);
            && WriteAt(b, d', from, to, next + WORD) && WriteGoing(b, d', data, from, to, next + WORD)
            && SameOutside(Target(b, d'), Target(b, d), from, to)
  {
    hide Target, Put, Programmed, SameOutside, NoStraddle, Landed, Blank, AllErased, Sound;
    WriteGoingFacts(b, d, data, from, to, next);
    RegionTarget(b, d, from, to, from + next, from + next + WORD);
    WordApart(b, from, to, next);
    WordAdded(Target(b, d), data, from, next, to);
    var word := data[next..next + WORD];
    assert WordOver(b, d.issued, Present(d, d.address), word) == word;
    IssuedTarget(b, d, d.address, word);
    var d' := Issued(b, d, d.address, word);
    SameTarget(b, d', d'.(state := WriteBusy, length := d.length - WORD));
  }

  lemma WriteGoingFacts(b: Board, d: Device, data: seq<Byte>, from: int, to: int, next: int)
    requires WriteAt(b, d, from, to, next) && WriteGoing(b, d, data, from, to, next)
    ensures |d.flash| == b.size && b.boundary % SECTOR == 0
    ensures Programmed(Target(b, d), data, from, next, to)
  {
  }

  lemma PassedGoing(b: Board, before: Device, data: seq<Byte>, from: int, to: int, next: int)
    requires WriteAt(b, before, from, to, next) && WriteGoing(b, before, data, from, to, next)
    ensures WriteAt(b, Passed(b, before), from, to, next) && WriteGoing(b, Passed(b, before), data, from, to, next)
    ensures Target(b, Passed(b, before)) == Target(b, before)
  {
    PassedTarget(b, before);
    PassedControl(b, before);
    hide Target, Programmed, NoStraddle;
  }

  lemma WriteBusyStep(b: Board, d: Device, data: seq<Byte>, from: int, to: int, next: int)
    requires WriteAt(b, d, from, to, next) && WriteGoing(b, d, data, from, to, next)
    requires d.state == WriteBusy && !Busy(b, d, d.address)
    ensures FreeOver(b, d, from, to)
    ensures if d.length == 0 then 0 <= from <= to <= |d.flash| && d.flash[from..to] == data[..to - from]
            else var d' := d.(state := WriteProgram, address := d.address + WORD);
                 && WriteAt(b, d', from, to, next) && WriteGoing(b, d', data, from, to, next)
                 && Target(b, d') == Target(b, d)
  {
    WriteAtFacts(b, d, from, to, next);
    RegionTarget(b, d, from, to, from, to);
    ProgrammedEnds(Target(b, d), data, from, to);
    SameTarget(b, d, d.(state := WriteProgram, address := d.address + WORD));
    hide Target, Programmed, NoStraddle;
  }

  /** Over erased bytes, with the banks the region lies in free when it began, every poll of a write keeps what is
      in the flash a prefix of the data; at its end the region holds the data and those banks are free again. */
  lemma WriteAdvances(b: Board, before: Device, data: seq<Byte>, from: int, to: int, next: int, offset: int, total: int)
    requires WriteAt(b, before, from, to, next) && WriteGoing(b, before, data, from, to, next)
    ensures before.state == WriteProgram ==> next + WORD <= |data|
    ensures var word := if before.state == WriteProgram then data[next..next + WORD] else [];
            var (d, done, ok) := WriteStep(b, before, word, offset, total);
            && Sound(b, d) && SameOutside(Target(b, d), Target(b, before), from, to)
            && (if done then
                  && FreeOver(b, d, from, to) && 0 <= from <= to <= |d.flash| && d.flash[from..to] == data[..to - from]
                else
                  && WriteAt(b, d, from, to, NextWord(before, next))
                  && WriteGoing(b, d, data, from, to, NextWord(before, next)))
  {
    hide Passed, Target, WriteGoing, SameOutside, WordAsked, Sound, Locked;
    PassedGoing(b, before, data, from, to, next);
    PassedControl(b, before);
    var d := Passed(b, before);
    Unchanged(Target(b, before), from, to);
    WriteGoingSound(b, d, data, from, to, next);
    if before.state == WriteProgram {
      WriteProgramStep(b, d, data, from, to, next);
      WriteGoingSound(b, WordAsked(b, d, data[next..next + WORD]), data, from, to, next + WORD);
    } else if !Busy(b, d, d.address) {
      WriteBusyStep(b, d, data, from, to, next);
      if d.length == 0 {
        LockedControl(b, d, from, to);
        SameTarget(b, d, Locked(b, d, d.address).(state := Idle));
      } else {
        WriteGoingSound(b, d.(state := WriteProgram, address := d.address + WORD), data, from, to, next);
      }
    }
  }

  // A write gives no command outside its region.
  lemma WriteWithin(b: Board, before: Device, word: seq<Byte>, from: int, to: int, next: int, offset: int, total: int)
    requires WriteAt(b, before, from, to, next) && (before.state == WriteProgram ==> |word| == WORD)
    requires Within(before, from, to)
    ensures Within(WriteStep(b, before, word, offset, total).0, from, to)
  {
    PassedWithin(b, before, from, to);
    PassedControl(b, before);
    hide Passed, WordOver;
  }

  lemma WriteGoingSound(b: Board, d: Device, data: seq<Byte>, from: int, to: int, next: int)
    requires WriteAt(b, d, from, to, next) && WriteGoing(b, d, data, from, to, next)
    ensures Sound(b, d) && |d.flash| == b.size && next <= |data| && next + d.length <= |data|
  {
  }

  // The first poll begins a write, unless the buffer is refused or an erase is ended.
  lemma WriteBegins(b: Board, before: Device, offset: int, total: int)
    requires Sound(b, before) && !Writing(before) && 0 <= offset && 0 <= total
    ensures var (d, done, ok) := WriteStep(b, before, [], offset, total);
            && Sound(b, d) && Target(b, d) == Target(b, before) && !Erasing(d)
            && (if before.state != Idle then !done && ok && d.state == Idle
                else if Acceptable(b.size, offset, total) then
                  !done && ok && WriteAt(b, d, offset, offset + total, 0) && Open(b, d, offset)
                else done && !ok && d.state == Idle)
            && (!done ==> WriteCloser(b, before, d))
            && Limit(b, d, offset, offset + total) == Limit(b, before, offset, offset + total)
            && (Quiet(before) ==> Quiet(d) && d.flash == before.flash)
  {
    PassedTarget(b, before);
    PassedControl(b, before);
    if Quiet(before) {
      QuietPassed(b, before);
    }
    var d := Passed(b, before);
    SameTarget(b, d, Unlocked(b, d, offset).(state := WriteProgram, length := total, address := offset));
    SameTarget(b, d, d.(state := Idle));
    hide Target, Passed;
  }

  lemma WriteBeginsGoing(b: Board, d: Device, data: seq<Byte>, offset: int, total: int)
    requires WriteAt(b, d, offset, offset + total, 0) && d.state == WriteProgram && total <= |data|
    requires FreeOver(b, d, offset, offset + total)
    requires NoStraddle(b.boundary, offset, offset + total) && AllErased(d.flash[offset..offset + total])
    requires Open(b, d, offset) && Limit(b, d, offset, offset + total) == offset + total
    ensures WriteGoing(b, d, data, offset, offset + total, 0)
  {
    RegionTarget(b, d, offset, offset + total, offset, offset + total);
    ProgrammedEnds(Target(b, d), data, offset, offset + total);
  }

  /* ---- One poll, as the driver's callers see it ---- */

  // One poll of an erase of [lo, hi).
  ghost predicate EraseOutcome(b: Board, before: Device, d: Device, done: bool, lo: int, hi: int) {
    var limit := Limit(b, before, lo, hi);
    && Sound(b, before) && Sound(b, d) && !Writing(d) && 0 <= lo <= limit <= hi <= b.size
    && SameOutside(Target(b, d), Target(b, before), lo, limit)
    && (done ==> Erasing(before) && d.state == Idle && AllErased(Target(b, d)[lo..limit]))
    && (!done ==> Limit(b, d, lo, hi) == limit)
    && (Erasing(before) && !done ==> Erasing(d)) && (Erasing(d) ==> EraseAt(b, d, lo, hi))
    && (!done ==> EraseCloser(b, before, d))
  }

  ghost predicate EraseReadyOutcome(b: Board, before: Device, d: Device, done: bool, lo: int, hi: int) {
    Within(before, lo, hi) ==>
    && Within(d, lo, hi) && SameOutside(d.flash, before.flash, lo, hi)
    && (done && !Reaches(b.boundary, lo, hi) ==> Quiet(d) && 0 <= lo <= hi <= |d.flash| && AllErased(d.flash[lo..hi]))
  }

  lemma EraseOn(b: Board, before: Device, from: int, to: int, offset: nat, total: nat)
    requires EraseAt(b, before, from, to)
    ensures var (d, done) := EraseStep(b, before, offset, total);
            EraseOutcome(b, before, d, done, from, to) && EraseReadyOutcome(b, before, d, done, from, to)
  {
    hide EraseStep, EraseAt, AllErased, SameOutside, Target, Within, Inside;
    EraseAdvances(b, before, from, to, offset, total);
    EraseNearer(b, before, from, to, offset, total);
    EraseAtSound(b, before, from, to);
    if Within(before, from, to) {
      EraseWithin(b, before, from, to, offset, total, from, to);
    }
    var (d, done) := EraseStep(b, before, offset, total);
    if !done {
      EraseAtSound(b, d, from, to);
    }
    SeenFromFlash(b, before, d, done, from, to);
  }

  lemma EraseAnew(b: Board, before: Device, offset: nat, total: nat)
    requires Sound(b, before) && !Erasing(before)
    requires offset % SECTOR == 0 && total % SECTOR == 0 && offset + total <= b.size
    ensures var (d, done) := EraseStep(b, before, offset, total);
            !done && EraseOutcome(b, before, d, done, offset, offset + total)
            && EraseReadyOutcome(b, before, d, done, offset, offset + total)
  {
    hide EraseStep, EraseAt, AllErased, SameOutside, Target, Within, Inside;
    EraseBegins(b, before, offset, total);
    Unchanged(Target(b, before), offset, Limit(b, before, offset, offset + total));
    if Within(before, offset, offset + total) {
      EraseBeginsWithin(b, before, offset, total, offset, offset + total);
    }
    var (d, done) := EraseStep(b, before, offset, total);
    if before.state == Idle {
      EraseAtSound(b, d, offset, offset + total);
    }
    SeenFromFlash(b, before, d, done, offset, offset + total);
  }

  lemma SeenFromFlash(b: Board, before: Device, d: Device, done: bool, lo: int, hi: int)
    requires EraseOutcome(b, before, d, done, lo, hi) && (Within(before, lo, hi) ==> Within(d, lo, hi))
    requires done ==> !Busy(b, d, hi)
    ensures EraseReadyOutcome(b, before, d, done, lo, hi)
  {
    hide EraseAt, AllErased, SameOutside, Target, Within;
    if Within(before, lo, hi) {
      Wider(Target(b, d), Target(b, before), lo, Limit(b, before, lo, hi), hi);
      FlashOutside(b, before, d, lo, hi);
      if done && !Reaches(b.boundary, lo, hi) {
        DoneQuiet(b, d, lo, hi);
        QuietTarget(b, d);
      }
    }
  }

  // One poll of a write of [lo, hi).
  ghost predicate WriteOutcome(b: Board, before: Device, d: Device, done: bool, lo: int, hi: int, next: int) {
    && Sound(b, before) && Sound(b, d) && !Erasing(d)
    && (done ==> d.state == Idle)
    && (Writing(d) ==> WriteAt(b, d, lo, hi, next))
    && (!done ==> WriteCloser(b, before, d))
  }

  // The same when the region was erased and the banks free.
  ghost predicate WriteReadyOutcome(b: Board, before: Device, d: Device, done: bool, data: seq<Byte>, lo: int, hi: int,
      next: int) {
    && SameOutside(d.flash, before.flash, lo, hi)
    && (if done then Quiet(d) && 0 <= lo <= hi <= |d.flash| && hi - lo <= |data| && d.flash[lo..hi] == data[..hi - lo]
        else if Writing(d) then
          WriteAt(b, d, lo, hi, next) && WriteGoing(b, d, data, lo, hi, next) && Within(d, lo, hi)
        else Quiet(d) && d.flash == before.flash && Limit(b, d, lo, hi) == Limit(b, before, lo, hi))
  }

  lemma WriteOn(b: Board, before: Device, word: seq<Byte>, data: seq<Byte>, from: int, to: int, next: int, offset: int,
      total: int)
    requires WriteAt(b, before, from, to, next) && to - from <= |data|
    requires word == if before.state == WriteProgram then data[next..next + WORD] else []
    ensures var (d, done, ok) := WriteStep(b, before, word, offset, total);
            && ok && (!done ==> Writing(d)) && WriteOutcome(b, before, d, done, from, to, NextWord(before, next))
            && (WriteGoing(b, before, data, from, to, next) && Within(before, from, to) ==>
                  WriteReadyOutcome(b, before, d, done, data, from, to, NextWord(before, next)))
  {
    WriteAtFacts(b, before, from, to, next);
    hide WriteStep, WriteAt, WriteGoing, SameOutside, Target, Within, Sound;
    WriteMoves(b, before, word, from, to, next, offset, total);
    var (d, done, ok) := WriteStep(b, before, word, offset, total);
    if !done {
      WriteAtFacts(b, d, from, to, NextWord(before, next));
    }
    if WriteGoing(b, before, data, from, to, next) && Within(before, from, to) {
      WriteAdvances(b, before, data, from, to, next, offset, total);
      WriteWithin(b, before, word, from, to, next, offset, total);
      FlashOutside(b, before, d, from, to);
      if done {
        FreeQuiet(b, d, from, to);
      }
    }
  }

  lemma WriteAtFacts(b: Board, d: Device, from: int, to: int, next: int)
    requires WriteAt(b, d, from, to, next)
    ensures Sound(b, d) && Writing(d) && 0 <= from <= to <= b.size && 0 <= next && 0 <= d.length
    ensures d.state == WriteProgram ==> next + WORD <= to - from && 0 <= d.address && d.address + WORD <= b.size
  {
  }

  lemma WriteAnew(b: Board, before: Device, data: seq<Byte>, offset: nat, total: nat)
    requires Sound(b, before) && !Writing(before) && total <= |data|
    ensures var (d, done, ok) := WriteStep(b, before, [], offset, total);
            && WriteOutcome(b, before, d, done, offset, offset + total, 0)
            && Target(b, d) == Target(b, before)
            && ok == (before.state != Idle || Acceptable(b.size, offset, total)) && (!ok ==> done)
            && (Quiet(before) ==> Quiet(d) && d.flash == before.flash)
            && (Quiet(before) && offset + total <= b.size && NoStraddle(b.boundary, offset, offset + total)
                && Limit(b, before, offset, offset + total) == offset + total
                && AllErased(before.flash[offset..offset + total]) && ok ==>
                  !done && WriteReadyOutcome(b, before, d, done, data, offset, offset + total, 0))
  {
    WriteBegins(b, before, offset, total);
    var (d, done, ok) := WriteStep(b, before, [], offset, total);
    Unchanged(before.flash, offset, offset + total);
    assert Writing(d) ==> d.state == WriteProgram;
    hide WriteStep, AllErased, SameOutside, Target, Sound, NoStraddle, WriteGoing;
    if Writing(d) && Quiet(before) && NoStraddle(b.boundary, offset, offset + total)
      && Limit(b, before, offset, offset + total) == offset + total {
      WriteAtFacts(b, d, offset, offset + total, 0);
      if AllErased(before.flash[offset..offset + total]) {
        WriteBeginsGoing(b, d, data, offset, total);
      }
    }
  }

  lemma WriteStepFacts(b: Board, before: Device, word: seq<Byte>, offset: int, total: int)
    requires Sound(b, before)
    requires before.state == WriteProgram ==> |word| == WORD
    ensures var (d, done, ok) := WriteStep(b, before, word, offset, total);
            && (Writing(d) ==> Writing(before) || (before.state == Idle && Acceptable(b.size, offset, total)))
            && (!done && !Erasing(before) ==> Writing(d))
  {
    hide Passed, Issued, WordOver;
    PassedControl(b, before);
  }

  class Controller {
    const board: Board

    var flash: seq<Byte>
    var bank0: Command
    var bank1: Command
    var open0: bool
    var open1: bool
    var issued: nat

    // The driver's static variables; the pointer into the buffer is the buffer and an index.
    var state: State
    var length: int
    var address: int
    var source: array?<Byte>
    var next: int

    // The region the operation in progress was started for.
    ghost var from: int
    ghost var to: int

    ghost function View(): Device
      reads this
    {
      Device(state, length, address, flash, bank0, bank1, open0, open1, issued)
    }

    ghost predicate Valid()
      reads this
    {
      && Sound(board, View())
      && (Erasing(View()) ==> EraseAt(board, View(), from, to))
      && (Writing(View()) ==> source != null && WriteAt(board, View(), from, to, next) && to - from <= source.Length)
    }

    // The flash once both banks are free.
    ghost function Settled(): (image: seq<Byte>)
      requires Valid()
      reads this
      ensures |image| == board.size
    {
      Target(board, View())
    }

    ghost predicate AtRest()
      reads this
    {
      Quiet(View())
    }

    // No other erase is under way, and no command outside the region.
    ghost predicate EraseReady(offset: int, total: int)
      reads this
    {
      && (Erasing(View()) ==> from == offset && to == offset + total)
      && Within(View(), offset, offset + total)
    }

    // Programming a buffer to a region has not begun, the region is erased and both banks are free; or it has
    // begun and so far put down a prefix of the buffer.
    ghost predicate WriteReady(offset: int, buffer: array<Byte>, total: int)
      requires Valid() && 0 <= offset && 0 <= total && offset + total <= board.size && total <= buffer.Length
      reads this, buffer
    {
      if Writing(View()) then
        source == buffer && from == offset && to == offset + total
            && WriteGoing(board, View(), buffer[..], from, to, next) && Within(View(), from, to)
      else
        && AtRest() && AllErased(flash[offset..offset + total])
        && NoStraddle(board.boundary, offset, offset + total)
        && Limit(board, View(), offset, offset + total) == offset + total
    }

    // A write is under way that is going well: its region was erased and its banks were free.
    ghost predicate Going()
      requires Valid()
      reads this, source
    {
      && Writing(View()) && 0 <= from <= to <= board.size && source != null && to - from <= source.Length
      && WriteReady(from, source, to - from)
    }

    constructor (board: Board, image: seq<Byte>)
      requires |image| == board.size < UINT32 && board.boundary % SECTOR == 0
      ensures Valid() && this.board == board && flash == image && state == Idle && AtRest()
      ensures Settled() == image
    {
      this.board, flash, bank0, bank1, issued := board, image, Nothing, Nothing, 0;
      open0, open1 := false, false;
      state, length, address, source, next := Idle, 0, 0, null, 0;
    }

    // Time passes.
    method Pass()
      requires Sound(board, View())
      modifies this`flash, this`bank0, this`bank1
      ensures View() == Passed(board, old(View()))
    {
      if bank0.Pending? && bank0.remaining == 0 {
        flash := Landed(flash, bank0);
      }
      if bank1.Pending? && bank1.remaining == 0 {
        flash := Landed(flash, bank1);
      }
      bank0 := Later(bank0);
      bank1 := Later(bank1);
    }

    // IsBusy.
    predicate IsBusy(address: int)
      reads this
    {
      if address < board.boundary then bank0.Pending? else bank1.Pending?
    }

    method Unlock(address: int)
      modifies this`open0, this`open1
      ensures View() == Unlocked(board, old(View()), address)
    {
      if address < board.boundary {
        open0 := true;
      } else {
        open1 := true;
      }
    }

    method Lock(address: int)
      modifies this`open0, this`open1
      ensures View() == Locked(board, old(View()), address)
    {
      if address < board.boundary {
        open0 := false;
      } else {
        open1 := false;
      }
    }

    // The hardware takes a command, or not.
    method Issue(at: int, bytes: seq<Byte>)
      modifies this`flash, this`bank0, this`bank1, this`issued
      ensures View() == Issued(board, old(View()), at, bytes)
    {
      if (if at < board.boundary then !open0 else !open1) {
        // A locked bank takes no commands.
      } else if at < 0 || board.size < at + |bytes| || IsBusy(at) || at < board.boundary < at + |bytes| {
        flash := Junk(board, issued, board.size);
        bank0, bank1 := Nothing, Nothing;
      } else if at < board.boundary {
        bank0 := Pending(at, bytes, board.timing(issued));
      } else {
        bank1 := Pending(at, bytes, board.timing(issued));
      }
      issued := issued + 1;
    }

    // Asks for one page to be erased.
    method ErasePage()
      modifies this`flash, this`bank0, this`bank1, this`issued, this`state, this`length, this`address
      ensures View() == PageAsked(board, old(View()))
    {
      hide Issued, ErasedPage;
      var page := Page(address, board.boundary);
      Issue(address, ErasedPage(board, address));
      length := Wrap(length - page);
      address := address + page;
      state := EraseBusy;
    }

    // Programs one word.
    method ProgramWord()
      requires source != null && 0 <= next && next + WORD <= source.Length
      requires 0 <= address && address + WORD <= |flash|
      modifies this`flash, this`bank0, this`bank1, this`issued, this`state, this`length, this`next
      ensures View() == WordAsked(board, old(View()), old(source[next..next + WORD])) && next == old(next) + WORD
    {
      hide Issued, WordOver;
      Issue(address, WordOver(board, issued, flash[address..address + WORD], source[next..next + WORD]));
      next := next + WORD;
      length := length - WORD;
      state := WriteBusy;
    }

    // The switch over the states.
    method EraseSwitch(offset: nat, total: nat) returns (done: bool)
      requires Sound(board, View())
      modifies this`flash, this`bank0, this`bank1, this`open0, this`open1, this`issued, this`state, this`length,
               this`address
      ensures (View(), done) == EraseStep(board, old(View()), offset, total)
    {
      hide Passed, PageAsked, Sound, Unlocked, Locked;
      Pass();
      match state {
        case Idle =>
          Unlock(offset);
          address := offset;
          length := total;
          state := EraseBusy;
          return false;

        case EraseBusy =>
          if IsBusy(address) {
            return false;
          }
          if length == 0 {
            Lock(address);
            state := Idle;
            return true;
          }
          state := EraseProgram;
          return false;

        case EraseProgram =>
          if length > 0 {
            ErasePage();
          } else {
            state := EraseBusy;
          }
          return false;

        case WriteBusy =>
          state := Idle;
          return false;

        case WriteProgram =>
          state := Idle;
          return false;
      }
    }

    /** One poll of an erase of whole sectors. This driver never reports an erase error. */
    method Erase(offset: nat, total: nat) returns (done: bool)
      requires Valid() && offset % SECTOR == 0 && total % SECTOR == 0 && offset + total <= board.size
      modifies this
      ensures (View(), done) == EraseStep(board, old(View()), offset, total)
      ensures Valid() && !Writing(View())
      ensures from == (if old(Erasing(View())) then old(from) else offset)
      ensures to == (if old(Erasing(View())) then old(to) else offset + total)
      ensures var limit := Limit(board, old(View()), from, to);
              && 0 <= from <= limit <= to <= board.size
              && SameOutside(Settled(), old(Settled()), from, limit)
              && (if done then old(Erasing(View())) && state == Idle && AllErased(Settled()[from..limit])
                  else Limit(board, View(), from, to) == limit)
      ensures old(Erasing(View())) && !done ==> Erasing(View())
      ensures EraseReadyOutcome(board, old(View()), View(), done, from, to)
      ensures old(EraseReady(offset, total)) ==> EraseReady(offset, total)
      ensures old(EraseReady(offset, total)) ==> SameOutside(flash, old(flash), offset, offset + total)
      ensures old(EraseReady(offset, total)) && done && !Reaches(board.boundary, offset, offset + total) ==>
                AtRest() && AllErased(flash[offset..offset + total])
      ensures !done ==> EraseCloser(board, old(View()), View())
    {
      hide Passed, Issued, Target, Sound, EraseAt, Inside, AllErased, SameOutside, EraseStep, Limit;
      ghost var before := View();
      if Erasing(before) {
        EraseOn(board, before, from, to, offset, total);
      } else {
        EraseAnew(board, before, offset, total);
        from, to := offset, offset + total;
      }
      done := EraseSwitch(offset, total);
    }

    // What a poll leaves of a write it was ready for.
    ghost predicate WriteDone(offset: int, buffer: array<Byte>, total: int, done: bool)
      requires Valid() && 0 <= offset && 0 <= total && offset + total <= board.size && total <= buffer.Length
      reads this, buffer
    {
      if done then AtRest() && flash[offset..offset + total] == buffer[..total] else WriteReady(offset, buffer, total)
    }

    // The word the driver has come to in its buffer.
    ghost function CurrentWord(): (word: seq<Byte>)
      requires state == WriteProgram ==> source != null && 0 <= next && next + WORD <= source.Length
      reads this, source
    {
      if state == WriteProgram then source[next..next + WORD] else []
    }

    // The switch over the states.
    method WriteSwitch(offset: nat, buffer: array<Byte>, total: nat) returns (done: bool, ok: bool)
      requires Sound(board, View())
      requires state == WriteProgram ==>
                 && source != null && 0 <= next && next + WORD <= source.Length
                 && 0 <= address && address + WORD <= board.size
      modifies this`flash, this`bank0, this`bank1, this`open0, this`open1, this`issued, this`state, this`length,
               this`address, this`source, this`next
      ensures (View(), done, ok) == WriteStep(board, old(View()), old(CurrentWord()), offset, total)
      ensures if old(state) == Idle && Acceptable(board.size, offset, total) then source == buffer && next == 0
              else source == old(source) && next == NextWord(old(View()), old(next))
    {
      hide Passed, WordAsked, Sound, Acceptable, Unlocked, Locked;
      ghost var before := View();
      Pass();
      PassedSize(board, before);
      match state {
        case Idle =>
          if !Acceptable(board.size, offset, total) {
            return true, false;
          }
          Unlock(offset);
          address := offset;
          source, next := buffer, 0;
          length := total;
          state := WriteProgram;
          return false, true;

        case WriteBusy =>
          if IsBusy(address) {
            return false, true;
          }
          if length == 0 {
            Lock(address);
            state := Idle;
            return true, true;
          }
          address := address + WORD;
          state := WriteProgram;
          return false, true;

        case WriteProgram =>
          ProgramWord();
          return false, true;

        case EraseBusy =>
          state := Idle;
          return false, true;

        case EraseProgram =>
          state := Idle;
          return false, true;
      }
    }

    /** One poll of a write of the first total bytes of a buffer. */
    method Write(offset: nat, buffer: array<Byte>, total: nat) returns (done: bool, ok: bool)
      requires Valid() && total <= buffer.Length
      modifies this
      ensures old(state) == WriteProgram ==> old(source != null && 0 <= next && next + WORD <= source.Length)
      ensures (View(), done, ok) == WriteStep(board, old(View()), old(CurrentWord()), offset, total)
      ensures Valid() && !Erasing(View())
      ensures Acceptable(board.size, offset, total)
              && old(offset + total <= board.size && WriteReady(offset, buffer, total)) ==>
                && ok && WriteDone(offset, buffer, total, done)
                && SameOutside(flash, old(flash), offset, offset + total)
                && (Writing(View()) ==> Going() && from == offset && to == offset + total && source == buffer)
      ensures old(Writing(View())) ==> from == old(from) && to == old(to)
      ensures old(Going()) ==>
                var lo, hi, other := old(from), old(to), old(source);
                && (if done then WriteDone(lo, other, hi - lo, true) else Going())
                && SameOutside(flash, old(flash), lo, hi)
      ensures old(state) == Idle && !Acceptable(board.size, offset, total)
              ==> done && !ok && Settled() == old(Settled())
      ensures !ok && old(AtRest()) ==> AtRest() && flash == old(flash)
      ensures ok == (old(state) != Idle || Acceptable(board.size, offset, total)) && (!ok ==> done)
      ensures done ==> state == Idle
      ensures !done && old(!Erasing(View())) ==> Writing(View())
      ensures if old(state) == Idle && Acceptable(board.size, offset, total) then source == buffer && next == 0
              else source == old(source) && next == NextWord(old(View()), old(next))
      ensures !done ==> WriteCloser(board, old(View()), View())
    {
      hide Passed, Issued, Target, Sound, WriteGoing, WriteAt, Inside, AllErased, SameOutside, WordOver, Blank;
      hide NoStraddle, EraseAt, Within, WriteRank, Waiting, WriteStep, Acceptable;
      ghost var before := View();
      if Writing(before) {
        WriteAtFacts(board, before, from, to, next);
      }
      ghost var word := CurrentWord();
      if Writing(before) {
        WriteOn(board, before, word, source[..], from, to, next, offset, total);
      } else {
        WriteAnew(board, before, buffer[..], offset, total);
        from, to := offset, offset + total;
      }
      done, ok := WriteSwitch(offset, buffer, total);
      WriteStepFacts(board, before, word, offset, total);
    }
  }

  lemma GoingIs(driver: Controller)
    requires driver.Valid() && driver.Going()
    ensures Writing(driver.View()) && 0 <= driver.from <= driver.to <= driver.board.size
    ensures driver.source != null && driver.to - driver.from <= driver.source.Length
  {
  }
}
