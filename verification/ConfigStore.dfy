/** The write-back configuration store of lib-configstore/include/configstore.h: a buffer in RAM
    that updates change at once, and a seven-state machine, one step a timer tick, that brings the
    flash up to date with it by way of the polled driver of module Fmc. */
module ConfigStore {

  import opened FlashBoard
  import opened Fmc
  import C = Completion

  const STORE_SIZE: nat := 4096

  // sizeof(ConfigurationStore): the part of the buffer that is written back.
  const IMAGE_SIZE: nat := 3136

  const HEADER_SIZE: nat := 6
  const HEADER: seq<Byte> := [0x41, 0x76, 0x56, 0x00, 0x00, 0x01]

  const NO_TIMER: int := -1

  datatype Phase = Idle | Changed | ChangedWaiting | Erasing | Erased | ErasedWaiting | Writing

  // The magic number and the version are in place.
  predicate HasHeader(image: seq<Byte>) {
    HEADER_SIZE <= |image| && image[..HEADER_SIZE] == HEADER
  }

  // The buffer of a store that found no valid image.
  function Fresh(): (image: seq<Byte>)
    ensures |image| == STORE_SIZE && HasHeader(image)
  {
    HEADER + seq(STORE_SIZE - HEADER_SIZE, _ => 0)
  }

  function Patched(image: seq<Byte>, offset: nat, bytes: seq<Byte>): (patched: seq<Byte>)
    requires offset + |bytes| <= |image|
    ensures |patched| == |image|
  {
    image[..offset] + bytes + image[offset + |bytes|..]
  }

  // How far the machine is from rest: its state, the polls its device operation still needs, and
  // the polls for which the device still reads as busy.
  datatype Distance = Distance(phase: nat, polls: int, busy: nat)

  predicate Below(a: Distance, b: Distance) {
    || a.phase < b.phase
    || (a.phase == b.phase && 0 <= b.polls && (a.polls < b.polls || (a.polls == b.polls && a.busy < b.busy)))
  }

  lemma PatchedAt(image: seq<Byte>, offset: nat, bytes: seq<Byte>)
    requires offset + |bytes| <= |image|
    ensures forall i :: 0 <= i < |image| ==>
              Patched(image, offset, bytes)[i] == if offset <= i < offset + |bytes| then bytes[i - offset] else image[i]
  {
  }

  lemma PatchedTwice(image: seq<Byte>, offset: nat, first: seq<Byte>, second: seq<Byte>)
    requires offset + |first| <= |image| && |second| <= |first|
    ensures Patched(Patched(image, offset, first), offset, second)
         == Patched(image, offset, second + first[|second|..])
  {
  }

  /** No update beyond the header can make an image invalid, or valid. */
  lemma HeaderKept(image: seq<Byte>, offset: nat, bytes: seq<Byte>)
    requires HEADER_SIZE <= offset && offset + |bytes| <= |image|
    ensures HasHeader(Patched(image, offset, bytes)) <==> HasHeader(image)
  {
  }

  /* ---- Flag words: four bytes, least significant first ---- */

  type Flags = bv32

  function FlagsAt(image: seq<Byte>, offset: nat): Flags
    requires offset + 4 <= |image|
  {
    FlagsOf(image[offset], image[offset + 1], image[offset + 2], image[offset + 3])
  }

  function FlagsOf(b0: Byte, b1: Byte, b2: Byte, b3: Byte): Flags {
    (b0 as Flags) | ((b1 as Flags) << 8) | ((b2 as Flags) << 16) | ((b3 as Flags) << 24)
  }

  function FlagBytes(flags: Flags): (bytes: seq<Byte>)
    ensures |bytes| == 4
  {
    [(flags & 0xFF) as Byte, ((flags >> 8) & 0xFF) as Byte, ((flags >> 16) & 0xFF) as Byte,
        ((flags >> 24) & 0xFF) as Byte]
  }

  lemma FlagsStored(image: seq<Byte>, offset: nat, flags: Flags)
    requires offset + 4 <= |image|
    ensures FlagsAt(Patched(image, offset, FlagBytes(flags)), offset) == flags
  {
  }

  /** The first byte holds the lowest eight bits, and so on. */
  lemma FlagsInBytes(image: seq<Byte>, offset: nat)
    requires offset + 4 <= |image|
    ensures var flags := FlagsAt(image, offset);
            && flags & 0xFF == image[offset] as Flags && (flags >> 8) & 0xFF == image[offset + 1] as Flags
            && (flags >> 16) & 0xFF == image[offset + 2] as Flags && flags >> 24 == image[offset + 3] as Flags
  {
  }

  // What setting, or clearing, leaves of a flag word: each looks first whether any of the bits is set.
  predicate AnySet(flags: Flags, flag: Flags) {
    flags & flag != 0
  }

  function WithFlag(flags: Flags, flag: Flags): Flags {
    if AnySet(flags, flag) then flags else flags | flag
  }

  function WithoutFlag(flags: Flags, flag: Flags): Flags {
    if AnySet(flags, flag) then flags & !flag else flags
  }

  predicate AllSet(flags: Flags, flag: Flags) {
    flags & flag == flag
  }

  // The bits that are not part of a flag.
  function Others(flags: Flags, flag: Flags): Flags {
    flags & !flag
  }

  lemma OrSetsAll(flags: Flags, flag: Flags)
    ensures AllSet(flags | flag, flag)
  {
  }

  lemma OrKeepsOthers(flags: Flags, flag: Flags)
    ensures Others(flags | flag, flag) == Others(flags, flag)
  {
    assert (flags | flag) & !flag == flags & !flag;
  }

  /** Setting a flag of several bits sets them all only if none or all of them were set before. */
  lemma SetFlagExactly(flags: Flags, flag: Flags)
    ensures AllSet(WithFlag(flags, flag), flag) <==> !AnySet(flags, flag) || AllSet(flags, flag)
    ensures Others(WithFlag(flags, flag), flag) == Others(flags, flag)
  {
    hide AnySet, AllSet, Others;
    OrSetsAll(flags, flag);
    OrKeepsOthers(flags, flag);
  }

  /** Clearing it always clears them all, and no other bit. */
  lemma ClearFlagExactly(flags: Flags, flag: Flags)
    ensures !AnySet(WithoutFlag(flags, flag), flag)
    ensures Others(WithoutFlag(flags, flag), flag) == Others(flags, flag)
  {
  }

  lemma FreshIs()
    ensures Fresh()[..HEADER_SIZE] == HEADER && forall i :: HEADER_SIZE <= i < STORE_SIZE ==> Fresh()[i] == 0
  {
  }

  lemma ErasedPart(flash: seq<Byte>, start: nat)
    requires start + STORE_SIZE <= |flash| && AllErased(flash[start..start + STORE_SIZE])
    ensures AllErased(flash[start..start + IMAGE_SIZE])
  {
    assert flash[start..start + IMAGE_SIZE] == flash[start..start + STORE_SIZE][..IMAGE_SIZE];
  }

  /* ---- What a commit comes to ---- */

  // The driver is at nothing but what the machine has begun in its state. (Beyond that nothing is asked of what it
  // and the flash are found at.)
  ghost predicate OnCourse(b: Board, d: Device, phase: Phase, start: nat, next: int) {
    && Sound(b, d) && start % SECTOR == 0 && start + STORE_SIZE <= b.size
    && match phase
       case Idle => true
       case ErasedWaiting => !Fmc.Writing(d)
       case Erased => !Fmc.Writing(d)
       case Writing => Fmc.Writing(d) ==> WriteAt(b, d, start, start + IMAGE_SIZE, next)
       case _ => Fmc.Erasing(d) ==> EraseAt(b, d, start, start + STORE_SIZE)
  }

  lemma ImageAcceptable(size: int, start: nat)
    requires start + STORE_SIZE <= size
    ensures Acceptable(size, start, IMAGE_SIZE)
  {
  }

  // The device when the erase of the store's region has been polled to its end.
  ghost function Emptied(b: Board, d: Device, start: nat): Device
    requires Sound(b, d) && start % SECTOR == 0 && start + STORE_SIZE <= b.size
    requires Fmc.Erasing(d) ==> EraseAt(b, d, start, start + STORE_SIZE)
  {
    if Fmc.Erasing(d) then C.EraseAll(b, d, start, start + STORE_SIZE) else C.EraseFrom(b, d, start, STORE_SIZE)
  }

  lemma EmptiedIdle(b: Board, d: Device, start: nat)
    requires Sound(b, d) && start % SECTOR == 0 && start + STORE_SIZE <= b.size
    requires Fmc.Erasing(d) ==> EraseAt(b, d, start, start + STORE_SIZE)
    ensures Sound(b, Emptied(b, d, start)) && Emptied(b, d, start).state == State.Idle
  {
    hide C.EraseAll, EraseAt, Sound;
    if Fmc.Erasing(d) {
      C.EraseEnds(b, d, start, start + STORE_SIZE);
    } else {
      C.BegunAt(b, d, start, STORE_SIZE);
      C.EraseEnds(b, C.Begun(b, d, start, STORE_SIZE), start, start + STORE_SIZE);
    }
  }

  // A poll of the erase changes nothing of what it comes to.
  lemma EmptiedOn(b: Board, d: Device, start: nat)
    requires Sound(b, d) && start % SECTOR == 0 && start + STORE_SIZE <= b.size
    requires Fmc.Erasing(d) ==> EraseAt(b, d, start, start + STORE_SIZE)
    ensures var (d', done) := EraseStep(b, d, start, STORE_SIZE);
            && Sound(b, d')
            && (if done then d' == Emptied(b, d, start) && d'.state == State.Idle
                else (Fmc.Erasing(d') ==> EraseAt(b, d', start, start + STORE_SIZE))
                     && Emptied(b, d', start) == Emptied(b, d, start))
  {
    hide EraseStep, EraseAt, Sound;
    if Fmc.Erasing(d) {
      EraseAdvances(b, d, start, start + STORE_SIZE, start, STORE_SIZE);
      EraseStays(b, d, start, start + STORE_SIZE);
    } else {
      C.GivenIs(b, d, start, STORE_SIZE);
      C.BegunAt(b, d, start, STORE_SIZE);
      EraseBegins(b, d, start, STORE_SIZE);
      EraseAtSound(b, C.Begun(b, d, start, STORE_SIZE), start, start + STORE_SIZE);
    }
  }

  lemma EraseStays(b: Board, d: Device, from: int, to: int)
    requires EraseAt(b, d, from, to)
    ensures var (d', done) := EraseStep(b, d, from, to - from);
            !done ==> Fmc.Erasing(d')
  {
    EraseAdvances(b, d, from, to, from, to - from);
    hide EraseStep;
  }

  // ... and when the image has been written from there.
  ghost function Written(b: Board, d: Device, image: seq<Byte>, start: nat, next: int): Device
    requires Sound(b, d) && start + STORE_SIZE <= b.size && |image| == IMAGE_SIZE
    requires Fmc.Writing(d) ==> WriteAt(b, d, start, start + IMAGE_SIZE, next)
  {
    ImageAcceptable(b.size, start);
    if Fmc.Writing(d) then C.WriteAll(b, d, image, start, start + IMAGE_SIZE, next) else C.WriteFrom(b, d, image, start)
  }

  lemma WrittenFresh(b: Board, d: Device, image: seq<Byte>, start: nat, next: int, next': int)
    requires Sound(b, d) && start + STORE_SIZE <= b.size && |image| == IMAGE_SIZE && !Fmc.Writing(d)
    ensures Written(b, d, image, start, next) == Written(b, d, image, start, next')
  {
  }

  // A poll of the write changes nothing of what it comes to.
  lemma WrittenOn(b: Board, d: Device, image: seq<Byte>, start: nat, next: int)
    requires Sound(b, d) && start + STORE_SIZE <= b.size && |image| == IMAGE_SIZE
    requires Fmc.Writing(d) ==> WriteAt(b, d, start, start + IMAGE_SIZE, next)
    ensures d.state == WriteProgram ==> 0 <= next && next + WORD <= IMAGE_SIZE
    ensures var (d', done, ok) := WriteStep(b, d, C.WordOf(d, image, next), start, IMAGE_SIZE);
            var next' := if d.state == State.Idle then 0 else NextWord(d, next);
            && Sound(b, d')
            && (if done then d' == Written(b, d, image, start, next)
                else (Fmc.Writing(d') ==> WriteAt(b, d', start, start + IMAGE_SIZE, next'))
                     && Written(b, d', image, start, next') == Written(b, d, image, start, next))
  {
    ImageAcceptable(b.size, start);
    hide WriteStep, WriteAt, Sound, Acceptable;
    if Fmc.Writing(d) {
      WriteAtFacts(b, d, start, start + IMAGE_SIZE, next);
      WriteMoves(b, d, C.WordOf(d, image, next), start, start + IMAGE_SIZE, next, start, IMAGE_SIZE);
      var (d', done, ok) := WriteStep(b, d, C.WordOf(d, image, next), start, IMAGE_SIZE);
      if !done {
        WriteAtFacts(b, d', start, start + IMAGE_SIZE, NextWord(d, next));
      }
    } else {
      WriteBegins(b, d, start, IMAGE_SIZE);
      C.FreedIs(b, d, start, IMAGE_SIZE);
      C.ReadyIs(b, d, start, IMAGE_SIZE);
    }
  }

  // The device when the machine has come to rest.
  ghost function Committed(b: Board, d: Device, image: seq<Byte>, phase: Phase, start: nat, next: int): Device
    requires OnCourse(b, d, phase, start, next) && |image| == IMAGE_SIZE
  {
    match phase
    case Idle => d
    case ErasedWaiting => Written(b, d, image, start, next)
    case Erased => Written(b, d, image, start, next)
    case Writing => Written(b, d, image, start, next)
    case _ =>
      EmptiedIdle(b, d, start);
      Written(b, Emptied(b, d, start), image, start, next)
  }

  lemma SameWord(d: Device, store: seq<Byte>, next: int)
    requires |store| == STORE_SIZE && (d.state == WriteProgram ==> 0 <= next && next + WORD <= IMAGE_SIZE)
    ensures C.WordOf(d, store[..IMAGE_SIZE], next)
         == if d.state == WriteProgram then store[next..next + WORD] else []
  {
  }

  class Store {
    const device: Controller
    const haveDevice: bool
    const start: nat
    const store: array<Byte>
    var state: Phase

    // The software timer that drives the machine, and whether the timer table has a free entry.
    var timer: int
    var timerInterval: nat
    var timersFull: bool

    ghost predicate Valid()
      reads this, device, store
    {
      && device.Valid() && store.Length == STORE_SIZE
      && start % SECTOR == 0 && start + STORE_SIZE <= device.board.size
      && !Reaches(device.board.boundary, start, start + STORE_SIZE)
      && device.EraseReady(start, STORE_SIZE)
      && (haveDevice ==> InPhase())
    }

    // What each state of the machine stands for.
    ghost predicate InPhase()
      requires device.Valid() && store.Length == STORE_SIZE && start + STORE_SIZE <= device.board.size
      reads this, device, store
    {
      match state
      case Idle => Persisted() && device.AtRest()
      case ErasedWaiting => RegionErased() && device.AtRest() && !Fmc.Writing(device.View())
      case Erased => RegionErased() && device.AtRest() && !Fmc.Writing(device.View())
      case Writing => device.WriteReady(start, store, IMAGE_SIZE)
      case _ => true
    }

    // Less than that: the driver is at nothing but what the machine has begun, whatever the flash and the hardware
    // are found at.
    ghost predicate Legal()
      reads this, device, store
    {
      && device.Valid() && store.Length == STORE_SIZE
      && start % SECTOR == 0 && start + STORE_SIZE <= device.board.size
      && (haveDevice ==> Course())
    }

    ghost predicate Course()
      reads this, device
    {
      && OnCourse(device.board, device.View(), state, start, device.next)
      && (state.Writing? && Fmc.Writing(device.View()) ==> device.source == store)
    }

    // What the device will be like when the machine has come to rest.
    ghost function Outcome(): Device
      requires Legal() && haveDevice
      reads this, device, store
    {
      Committed(device.board, device.View(), store[..IMAGE_SIZE], state, start, device.next)
    }

    // The flash holds what the buffer holds.
    ghost predicate Persisted()
      requires device.Valid() && store.Length == STORE_SIZE && start + STORE_SIZE <= device.board.size
      reads this, device, store
    {
      device.flash[start..start + IMAGE_SIZE] == store[..IMAGE_SIZE]
    }

    ghost predicate RegionErased()
      requires device.Valid() && start + STORE_SIZE <= device.board.size
      reads this, device
    {
      AllErased(device.flash[start..start + STORE_SIZE])
    }

    // Work to be done has a timer to do it.
    ghost predicate Scheduled()
      reads this
    {
      haveDevice && !state.Idle? ==> timer != NO_TIMER
    }

    ghost function Rank(): Distance
      requires device.Valid()
      reads this, device
    {
      match state
      case Changed => Distance(6, 0, 0)
      case ChangedWaiting => Distance(5, 0, 0)
      case Erasing => Distance(4, EraseRank(device.board, device.View()), Waiting(device.board, device.View()))
      case ErasedWaiting => Distance(3, 0, 0)
      case Erased => Distance(2, 0, 0)
      case Writing => Distance(1, WriteRank(device.board, device.View()), Waiting(device.board, device.View()))
      case Idle => Distance(0, 0, 0)
    }

    /** Start-up: the buffer takes the flash image if it has a valid header, and otherwise a fresh
        one that is at once due to be written. */
    constructor (device: Controller, detected: bool, timersFull: bool)
      requires device.Valid() && device.state.Idle? && device.AtRest()
      requires STORE_SIZE <= device.board.size && device.board.size % SECTOR == 0
      requires device.board.boundary != device.board.size
      ensures Valid() && this.device == device && haveDevice == detected && this.timersFull == timersFull
      ensures start == device.board.size - STORE_SIZE
      ensures !timersFull ==> Scheduled()
      ensures var image, header := device.flash[start..start + STORE_SIZE], [0x41, 0x76, 0x56, 0x00, 0x00, 0x01];
              if !detected then forall i :: 0 <= i < STORE_SIZE ==> store[i] == 0
              else if image[..6] == header then store[..] == image
              else store[..6] == header && forall i :: 6 <= i < STORE_SIZE ==> store[i] == 0
      ensures state.Idle? <==> !detected || device.flash[start..start + 6] == [0x41, 0x76, 0x56, 0x00, 0x00, 0x01]
    {
      this.device, haveDevice, this.timersFull := device, detected, timersFull;
      start := device.board.size - STORE_SIZE / SECTOR * SECTOR;
      store := new Byte[STORE_SIZE](_ => 0);
      state, timer, timerInterval := Phase.Idle, NO_TIMER, 0;
      new;
      if haveDevice {
        Fill(device.flash[start..start + STORE_SIZE]);
        Front(device.flash, start, STORE_SIZE, IMAGE_SIZE);
        Front(device.flash, start, STORE_SIZE, 6);
        if !HasHeader(store[..]) {
          FreshIs();
          Fill(Fresh());
          SetStatusChanged();
        }
      }
    }

    // memcpy of a whole image into the buffer.
    method Fill(image: seq<Byte>)
      requires |image| == store.Length
      modifies store
      ensures store[..] == image
    {
      forall i | 0 <= i < store.Length {
        store[i] := image[i];
      }
    }

    method SetStatusChanged()
      modifies this
      ensures state == Changed
      ensures timersFull == old(timersFull)
      ensures !timersFull ==> timer != NO_TIMER
      ensures timer == NO_TIMER ==> old(timer) == NO_TIMER
    {
      state := Changed;
      TimerStart();
    }

    method TimerStart()
      modifies this`timer, this`timerInterval
      ensures !timersFull ==> timer != NO_TIMER
      ensures timer == NO_TIMER ==> old(timer) == NO_TIMER
      ensures old(timer) != NO_TIMER ==> timer == old(timer) && timerInterval == old(timerInterval)
      ensures old(timer) == NO_TIMER && timer != NO_TIMER ==> timerInterval == 100
    {
      if timer != NO_TIMER {
        return;
      }
      timer := SoftwareTimerAdd();
      timerInterval := 100;
    }

    // The timer table hands out some handle, or none when it is full.
    method SoftwareTimerAdd() returns (handle: int)
      ensures timersFull <==> handle == NO_TIMER
    {
      if timersFull {
        return NO_TIMER;
      }
      handle :| handle >= 0;
    }

    // A handle that is not in use changes nothing.
    method SoftwareTimerChange(handle: int, interval: nat)
      modifies this`timerInterval
      ensures timerInterval == if handle == timer && timer != NO_TIMER then interval else old(timerInterval)
    {
      if handle == timer && timer != NO_TIMER {
        timerInterval := interval;
      }
    }

    method TimerStop()
      modifies this`timer
      ensures timer == NO_TIMER
    {
      if timer == NO_TIMER {
        return;
      }
      // Deleting a timer resets its handle.
      timer := NO_TIMER;
    }

    // One poll of the erase.
    method FlashErasing()
      requires Legal() && haveDevice && state.Erasing?
      modifies this`state, device
      ensures Legal() && store[..] == old(store[..]) && (state.Erasing? || state.ErasedWaiting?)
      ensures Outcome() == old(Outcome()) && Below(Rank(), old(Rank()))
      ensures old(Valid()) ==> Valid() && SameOutside(device.flash, old(device.flash), start, start + STORE_SIZE)
    {
      hide AllErased, SameOutside, Sound, EraseStep, EraseAt, WriteAt, WriteGoing, Target, Within, Emptied, Written;
      hide EraseRank, Waiting, Reaches, EraseReadyOutcome, Quiet;
      SizeKept(device.board, device.View());
      NothingWithin(device.View(), start, start + STORE_SIZE);
      EmptiedOn(device.board, device.View(), start);
      EmptiedIdle(device.board, device.View(), start);
      ghost var emptied, next := Emptied(device.board, device.View(), start), device.next;
      var done := device.Erase(start, STORE_SIZE);
      WrittenFresh(device.board, emptied, store[..IMAGE_SIZE], start, next, device.next);
      if done {
        state := ErasedWaiting;
      } else {
        EmptiedIdle(device.board, device.View(), start);
      }
    }

    // One poll of the write.
    method FlashWriting() returns (more: bool)
      requires Legal() && haveDevice && state.Writing?
      modifies this`state, device
      ensures Legal() && store[..] == old(store[..]) && (if more then state.Writing? else state.Idle?)
      ensures Outcome() == old(Outcome()) && (more ==> Below(Rank(), old(Rank())))
      ensures old(Valid()) ==> Valid() && SameOutside(device.flash, old(device.flash), start, start + STORE_SIZE)
    {
      hide AllErased, SameOutside, Sound, WriteStep, EraseAt, WriteAt, WriteGoing, Target, Within, Emptied, Written;
      hide WriteRank, Waiting, Reaches, NoStraddle, Quiet;
      SizeKept(device.board, device.View());
      ImageAcceptable(device.board.size, start);
      WrittenOn(device.board, device.View(), store[..IMAGE_SIZE], start, device.next);
      assert C.WordOf(device.View(), store[..IMAGE_SIZE], device.next) == device.CurrentWord() by {
        SameWord(device.View(), store[..], device.next);
      }
      WriteStepFacts(device.board, device.View(), device.CurrentWord(), start, IMAGE_SIZE);
      var done, ok := device.Write(start, store, IMAGE_SIZE);
      if old(Valid()) {
        Wider(device.flash, old(device.flash), start, start + IMAGE_SIZE, start + STORE_SIZE);
      }
      NothingWithin(device.View(), start, start + STORE_SIZE);
      if done {
        state := Phase.Idle;
        return false;
      }
      if Fmc.Writing(device.View()) && Within(device.View(), start, start + IMAGE_SIZE) {
        WithinWider(device.View(), start, start + IMAGE_SIZE, start, start + STORE_SIZE);
      }
      return true;
    }

    /** One step of the machine; the result says whether there is more to do. */
    method Flash() returns (more: bool)
      requires Legal()
      modifies this`state, this`timerInterval, device
      ensures Legal() && store[..] == old(store[..])
      ensures haveDevice ==> Outcome() == old(Outcome())
      ensures !more <==> !haveDevice || state.Idle?
      ensures old(!haveDevice || state.Idle?) ==> state == old(state) && device.View() == old(device.View())
      ensures more ==> Below(Rank(), old(Rank()))
      ensures haveDevice ==>
                match old(state)
                case Idle => state.Idle?
                case Changed => state.ChangedWaiting?
                case ChangedWaiting => state.Erasing?
                case Erasing => state.Erasing? || state.ErasedWaiting?
                case ErasedWaiting => state.Erased?
                case Erased => state.Writing?
                case Writing => state.Writing? || state.Idle?
      ensures timerInterval == if haveDevice && old(state).Erased? && timer != NO_TIMER then 0 else old(timerInterval)
      ensures !old(state).Erasing? && !old(state).Writing? ==> device.View() == old(device.View())
      ensures old(Valid()) ==> Valid() && SameOutside(device.flash, old(device.flash), start, start + STORE_SIZE)
    {
      hide AllErased, SameOutside, Sound, EraseAt, WriteAt, WriteGoing, Target, Within, Emptied, Written;
      hide EraseRank, WriteRank, Waiting, Reaches, NoStraddle, Quiet;
      Unchanged(device.flash, start, start + STORE_SIZE);
      if state.Idle? {
        return false;
      }
      if !haveDevice {
        return false;
      }
      match state {
        case Changed =>
          state := ChangedWaiting;
          return true;

        case ChangedWaiting =>
          state := Erasing;
          return true;

        case Erasing =>
          FlashErasing();
          return true;

        case ErasedWaiting =>
          state := Erased;
          return true;

        case Erased =>
          if Valid() {
            SizeKept(device.board, device.View());
            ErasedPart(device.flash, start);
          }
          SectorNoStraddle(device.board.boundary, start, start + IMAGE_SIZE);
          state := Writing;
          SoftwareTimerChange(timer, 0);
          return true;

        case Writing =>
          more := FlashWriting();
          return more;
      }
    }

    /** The timer callback. */
    method Tick()
      requires Valid() && timer != NO_TIMER
      modifies this, device
      ensures Valid() && store[..] == old(store[..]) && timersFull == old(timersFull)
      ensures SameOutside(device.flash, old(device.flash), start, start + STORE_SIZE)
      ensures timer == NO_TIMER || timer == old(timer)
      ensures timer == NO_TIMER <==> !haveDevice || state.Idle?
      ensures timer != NO_TIMER ==> Below(Rank(), old(Rank()))
    {
      var more := Flash();
      if !more {
        TimerStop();
      }
    }

    /** Once updates stop, the timer fires only finitely often more, and then the flash holds the
        last buffer. */
    method RunTimer()
      requires Valid() && Scheduled()
      modifies this, device
      ensures Valid() && store[..] == old(store[..]) && timer == NO_TIMER
      ensures haveDevice ==> state.Idle? && Persisted()
      ensures SameOutside(device.flash, old(device.flash), start, start + STORE_SIZE)
    {
      while timer != NO_TIMER
        invariant Valid() && Scheduled() && store[..] == old(store[..])
        invariant SameOutside(device.flash, old(device.flash), start, start + STORE_SIZE)
        decreases if timer != NO_TIMER then 1 else 0, Rank().phase, Rank().polls, Rank().busy
      {
        Tick();
      }
    }

    /** ConfigstoreCommit: runs the machine to rest without the timer. Whatever it is found at, the device is left as
        the polls of an erase and a write leave it; if the invariant held, the flash then holds the buffer. */
    method CommitAll()
      requires Legal()
      modifies this, device
      ensures Legal() && store[..] == old(store[..]) && timer == old(timer)
      ensures haveDevice ==> state.Idle? && device.View() == old(Outcome())
      ensures !haveDevice ==> state == old(state) && device.View() == old(device.View())
      ensures old(Valid()) ==> Valid() && (haveDevice ==> Persisted())
      ensures old(Valid()) ==> SameOutside(device.flash, old(device.flash), start, start + STORE_SIZE)
    {
      hide SameOutside, AllErased, Sound, Reaches, Quiet, WriteAt, EraseAt, EraseRank, WriteRank, Waiting, Target;
      hide Emptied, Written, WriteGoing, Within;
      var more := Flash();
      while more
        invariant Legal() && store[..] == old(store[..]) && timer == old(timer)
        invariant more ==> haveDevice
        invariant !more ==> !haveDevice || state.Idle?
        invariant haveDevice ==> Outcome() == old(Outcome())
        invariant !haveDevice ==> state == old(state) && device.View() == old(device.View())
        invariant old(Valid()) ==> Valid() && SameOutside(device.flash, old(device.flash), start, start + STORE_SIZE)
        decreases if more then 1 else 0, Rank().phase, Rank().polls, Rank().busy
      {
        ghost var flash := device.flash;
        more := Flash();
        if old(Valid()) {
          SameChain(device.flash, flash, old(device.flash), start, start + STORE_SIZE);
        }
      }
    }

    // memcpy into a field of the buffer.
    method Copy(offset: nat, bytes: seq<Byte>)
      requires offset + |bytes| <= store.Length
      modifies store
      ensures store[..] == Patched(old(store[..]), offset, bytes)
    {
      forall i | offset <= i < offset + |bytes| {
        store[i] := bytes[i - offset];
      }
    }

    /** Update and Store: a field takes a value, and the machine restarts if that changes anything.
        A restart from any state keeps the invariant: no later write runs without an erase before it. */
    method Update(offset: nat, value: seq<Byte>)
      requires Valid() && offset + |value| <= STORE_SIZE
      modifies this, store
      ensures Valid() && device.flash == old(device.flash) && timersFull == old(timersFull)
      ensures forall i :: 0 <= i < STORE_SIZE ==>
                store[i] == if offset <= i < offset + |value| then value[i - offset] else old(store[i])
      ensures state == if store[..] == old(store[..]) then old(state) else Changed
      ensures old(Scheduled()) && !timersFull ==> Scheduled()
    {
      ghost var before := store[..];
      assert Patched(before, offset, before[offset..offset + |value|]) == before;
      if store[offset..offset + |value|] != value {
        Copy(offset, value);
        SetStatusChanged();
        assert store[offset..offset + |value|] == value;
      }
    }

    /** UpdateArray: only the bytes given are compared; if they differ the whole field becomes those
        bytes followed by zeros. */
    method UpdateArray(offset: nat, size: nat, source: seq<Byte>, length: nat)
      requires Valid() && offset + size <= STORE_SIZE && (length <= |source| || size <= |source|)
      modifies this, store
      ensures Valid() && device.flash == old(device.flash) && timersFull == old(timersFull)
      ensures var n := if length > size then size else length;
        if old(store[offset..offset + n]) == source[..n] then
          store[..] == old(store[..]) && state == old(state)
        else
          && state == Changed
          && forall i :: 0 <= i < STORE_SIZE ==>
               store[i] == if i < offset || offset + size <= i then old(store[i])
                           else if i < offset + n then source[i - offset] else 0
      ensures old(Scheduled()) && !timersFull ==> Scheduled()
    {
      hide Patched;
      var n := if length > size then size else length;
      if store[offset..offset + n] != source[..n] {
        var zeros := seq(size, _ => 0);
        PatchedTwice(store[..], offset, zeros, source[..n]);
        PatchedAt(store[..], offset, source[..n] + zeros[n..]);
        Copy(offset, zeros);
        Copy(offset, source[..n]);
        SetStatusChanged();
      }
    }

    /** SetFlagInternal. */
    method SetFlag(offset: nat, flag: Flags)
      requires Valid() && offset + 4 <= STORE_SIZE
      modifies this, store
      ensures Valid() && device.flash == old(device.flash) && timersFull == old(timersFull)
      ensures var flags := FlagsAt(old(store[..]), offset);
        if !AnySet(flags, flag) then
          && FlagsAt(store[..], offset) == WithFlag(flags, flag) && state == Changed
          && forall i :: 0 <= i < STORE_SIZE && !(offset <= i < offset + 4) ==> store[i] == old(store[i])
        else
          store[..] == old(store[..]) && state == old(state)
      ensures old(Scheduled()) && !timersFull ==> Scheduled()
    {
      hide AnySet, WithFlag, FlagsAt, FlagBytes;
      var flags := FlagsAt(store[..], offset);
      if !AnySet(flags, flag) {
        FlagsStored(store[..], offset, WithFlag(flags, flag));
        PatchedAt(store[..], offset, FlagBytes(WithFlag(flags, flag)));
        Copy(offset, FlagBytes(WithFlag(flags, flag)));
        SetStatusChanged();
      }
    }

    /** ClearFlagInternal. */
    method ClearFlag(offset: nat, flag: Flags)
      requires Valid() && offset + 4 <= STORE_SIZE
      modifies this, store
      ensures Valid() && device.flash == old(device.flash) && timersFull == old(timersFull)
      ensures var flags := FlagsAt(old(store[..]), offset);
        if AnySet(flags, flag) then
          && FlagsAt(store[..], offset) == WithoutFlag(flags, flag) && state == Changed
          && forall i :: 0 <= i < STORE_SIZE && !(offset <= i < offset + 4) ==> store[i] == old(store[i])
        else
          store[..] == old(store[..]) && state == old(state)
      ensures old(Scheduled()) && !timersFull ==> Scheduled()
    {
      hide AnySet, WithoutFlag, FlagsAt, FlagBytes;
      var flags := FlagsAt(store[..], offset);
      if AnySet(flags, flag) {
        FlagsStored(store[..], offset, WithoutFlag(flags, flag));
        PatchedAt(store[..], offset, FlagBytes(WithoutFlag(flags, flag)));
        Copy(offset, FlagBytes(WithoutFlag(flags, flag)));
        SetStatusChanged();
      }
    }

    /** Reset: the header goes too, so the next start-up finds no valid image. */
    method Reset()
      requires Valid()
      modifies this, store
      ensures Valid() && device.flash == old(device.flash) && timersFull == old(timersFull)
      ensures store[..] == seq(STORE_SIZE, _ => 0) && state == Changed
      ensures old(Scheduled()) && !timersFull ==> Scheduled()
    {
      Fill(seq(STORE_SIZE, _ => 0));
      SetStatusChanged();
    }
  }

  lemma Front(flash: seq<Byte>, start: nat, n: nat, k: nat)
    requires k <= n && start + n <= |flash|
    ensures flash[start..start + k] == flash[start..start + n][..k]
  {
  }

  lemma HeaderInImage(flash: seq<Byte>, stored: seq<Byte>, start: nat)
    requires |stored| == STORE_SIZE && start + STORE_SIZE <= |flash|
    requires flash[start..start + IMAGE_SIZE] == stored[..IMAGE_SIZE]
    ensures flash[start..start + 6] == stored[..6] && flash[start..start + STORE_SIZE][..6] == stored[..6]
    ensures flash[start..start + STORE_SIZE][..IMAGE_SIZE] == stored[..IMAGE_SIZE]
  {
    var image := flash[start..start + STORE_SIZE];
    assert image[..IMAGE_SIZE] == flash[start..start + IMAGE_SIZE];
    assert image[..6] == image[..IMAGE_SIZE][..6] && stored[..6] == stored[..IMAGE_SIZE][..6];
    assert image[..6] == flash[start..start + 6];
  }

  /** Commit, lose power, start again: the same bytes come back as long as the header is in place,
      and a fresh image otherwise. */
  method Restart(last: Store) returns (again: Store)
    requires last.Valid() && last.haveDevice && last.device.board.size % SECTOR == 0
    requires last.start == last.device.board.size - STORE_SIZE && last.device.board.boundary != last.device.board.size
    modifies last, last.device
    ensures again.Valid() && again.haveDevice
    ensures var header := [0x41, 0x76, 0x56, 0x00, 0x00, 0x01];
            && (again.state.Idle? <==> old(last.store[..6]) == header)
            && (if old(last.store[..6]) == header then again.store[..IMAGE_SIZE] == old(last.store[..IMAGE_SIZE])
                else again.store[..6] == header && forall i :: 6 <= i < STORE_SIZE ==> again.store[i] == 0)
  {
    hide Sound, EraseAt, WriteAt, Target, AllErased, SameOutside, HasHeader;
    last.CommitAll();
    SizeKept(last.device.board, last.device.View());
    ghost var start, stored := last.start, last.store[..];
    assert last.device.flash[start..start + IMAGE_SIZE] == stored[..IMAGE_SIZE];
    hide WriteGoing, Within, Quiet, Inside, Store.InPhase;
    var device := new Controller(last.device.board, last.device.flash);
    again := new Store(device, true, last.timersFull);
    HeaderInImage(device.flash, stored, start);
  }

  /* ---- Sharing the driver, and losing power ---- */

  // The flash holds the image.
  ghost predicate Keeps(d: Device, image: seq<Byte>, start: nat) {
    start + |image| <= |d.flash| && d.flash[start..start + |image|] == image
  }

  predicate BeforeErase(phase: Phase) {
    phase == Changed || phase == ChangedWaiting || phase == Erasing
  }

  // The driver is at no operation of the kind the machine asks for next: it would go on with that one instead.
  predicate FreeFor(phase: Phase, d: Device) {
    if BeforeErase(phase) then !Fmc.Erasing(d) else !Fmc.Writing(d)
  }

  lemma OnCourseFree(b: Board, d: Device, phase: Phase, start: nat)
    requires Sound(b, d) && FreeFor(phase, d) && start % SECTOR == 0 && start + STORE_SIZE <= b.size
    ensures OnCourse(b, d, phase, start, 0)
  {
  }

  // A commit that has its erase before it keeps every image.
  lemma EmptiedKeeps(b: Board, d: Device, image: seq<Byte>, phase: Phase, start: nat)
    requires Sound(b, d) && FreeFor(phase, d) && start % SECTOR == 0 && start + STORE_SIZE <= b.size
    requires !Reaches(b.boundary, start, start + STORE_SIZE) && |image| == IMAGE_SIZE && BeforeErase(phase)
    ensures OnCourse(b, d, phase, start, 0) && Keeps(Committed(b, d, image, phase, start, 0), image, start)
  {
    hide C.EraseFrom, C.WriteFrom, AllErased, Sound;
    OnCourseFree(b, d, phase, start);
    ImageAcceptable(b.size, start);
    EmptiedIdle(b, d, start);
    C.BeginsComplete(b, d, start, STORE_SIZE);
    var emptied := Emptied(b, d, start);
    ErasedPart(emptied.flash, start);
    C.WritableStores(b, emptied, image, start);
  }

  // One that has only its write before it does what that does.
  lemma WrittenKeeps(b: Board, d: Device, image: seq<Byte>, phase: Phase, start: nat)
    requires Sound(b, d) && FreeFor(phase, d) && start % SECTOR == 0 && start + STORE_SIZE <= b.size
    requires |image| == IMAGE_SIZE && !BeforeErase(phase) && !phase.Idle?
    ensures OnCourse(b, d, phase, start, 0) && Acceptable(b.size, start, IMAGE_SIZE)
    ensures Keeps(Committed(b, d, image, phase, start, 0), image, start) <==> C.Stores(b, d, image, start)
  {
    hide C.WriteAll, Sound;
    OnCourseFree(b, d, phase, start);
    ImageAcceptable(b.size, start);
    C.WriteFromEnds(b, d, image, start);
  }

  /** Another client of the driver, such as the installer, has used it between two steps of the machine, and left the
      flash, the banks and the driver at anything but an operation of the kind the machine asks for next. A commit then
      leaves the buffer in the flash, for all its contents, all times commands take and all that is left where nothing
      is promised, exactly if the machine has its erase before it, or the image's part of its region is erased and its
      bank free. (At rest it does nothing.) */
  lemma CommitExact(b: Board, d: Device, phase: Phase, start: nat)
    requires Sound(b, d) && FreeFor(phase, d) && start % SECTOR == 0 && start + STORE_SIZE <= b.size
    requires !Reaches(b.boundary, start, start + STORE_SIZE) && !phase.Idle?
    ensures (forall b': Board, polls0: nat, polls1: nat, image: seq<Byte> ::
               b'.size == b.size && b'.boundary == b.boundary && |image| == IMAGE_SIZE ==>
                 && OnCourse(b', C.Retimed(d, polls0, polls1), phase, start, 0)
                 && Keeps(Committed(b', C.Retimed(d, polls0, polls1), image, phase, start, 0), image, start))
            <==> BeforeErase(phase) || C.Writable(b, d, start, start + IMAGE_SIZE)
  {
    hide Committed, C.Stores, C.Writable, Keeps, OnCourse;
    ImageAcceptable(b.size, start);
    if !BeforeErase(phase) && !C.Writable(b, d, start, start + IMAGE_SIZE) {
      var polls, image := C.UnwritableLost(b, d, start, IMAGE_SIZE);
      WrittenKeeps(C.QuickBoard(b.size, b.boundary), C.Retimed(d, polls, polls), image, phase, start);
    } else {
      forall b': Board, polls0: nat, polls1: nat, image: seq<Byte>
        | b'.size == b.size && b'.boundary == b.boundary && |image| == IMAGE_SIZE
        ensures OnCourse(b', C.Retimed(d, polls0, polls1), phase, start, 0)
        ensures Keeps(Committed(b', C.Retimed(d, polls0, polls1), image, phase, start, 0), image, start)
      {
        var d' := C.Retimed(d, polls0, polls1);
        C.RetimedSound(b, b', d, polls0, polls1);
        if BeforeErase(phase) {
          EmptiedKeeps(b', d', image, phase, start);
        } else {
          WrittenKeeps(b', d', image, phase, start);
          C.RetimedWritable(b, b', d, polls0, polls1, start, start + IMAGE_SIZE);
          C.WritableStores(b', d', image, start);
        }
      }
    }
  }

  // An image that begins with the first k bytes of the data, goes on with a word that may hold anything, and is
  // erased behind that.
  ghost predicate Torn(image: seq<Byte>, data: seq<Byte>, k: int) {
    && 0 <= k <= IMAGE_SIZE <= |image| && k <= |data| && k % WORD == 0
    && image[..k] == data[..k] && (k + WORD <= IMAGE_SIZE ==> AllErased(image[k + WORD..IMAGE_SIZE]))
  }

  lemma TornHeader(image: seq<Byte>, data: seq<Byte>, k: int)
    requires Torn(image, data, k) && HasHeader(data)
    ensures HasHeader(image) <==> 2 * WORD <= k || (k == WORD && image[WORD..HEADER_SIZE] == HEADER[WORD..])
  {
    if 2 * WORD <= k {
      assert image[..HEADER_SIZE] == image[..k][..HEADER_SIZE] == data[..k][..HEADER_SIZE] == data[..HEADER_SIZE];
    } else if k == WORD {
      assert image[..WORD] == data[..HEADER_SIZE][..WORD] == HEADER[..WORD];
      assert image[..HEADER_SIZE] == image[..WORD] + image[WORD..HEADER_SIZE];
      assert HEADER == HEADER[..WORD] + HEADER[WORD..];
    } else {
      assert image[WORD..IMAGE_SIZE][1] == ERASED;
      assert image[5] == ERASED && HEADER[5] != ERASED;
    }
  }

  // Where the word that is being programmed begins, if one is, and otherwise the next.
  function TornAt(b: Board, d: Device, start: nat, next: int): int {
    if Busy(b, d, d.address) && d.state == WriteBusy then next - WORD else next
  }

  // Only the word being programmed can still change.
  lemma OneWordPending(b: Board, d: Device, data: seq<Byte>, from: int, to: int, next: int)
    requires WriteAt(b, d, from, to, next) && WriteGoing(b, d, data, from, to, next) && Within(d, from, to)
    ensures var k := TornAt(b, d, from, next);
            && 0 <= k && k % WORD == 0 && k <= next <= to - from && next <= k + WORD
            && SameOutside(Target(b, d), d.flash, from + k, from + next)
  {
    var k := TornAt(b, d, from, next);
    PreviousWord(next);
    assert Within(d, from + k, from + next);
    TargetOutside(b, d, from + k, from + next);
    hide Target, Programmed;
  }

  lemma PreviousWord(next: int)
    requires next % WORD == 0
    ensures (next - WORD) % WORD == 0
  {
  }

  /** Power lost in the middle of a write, at any moment and with anything left of the word then being programmed,
      leaves an image that begins with a part of the buffer, of whole words, and is erased behind the word after that.
      The next start-up takes it for valid exactly if two words were in place, or one and what is left of the next
      happens to hold the rest of the header. */
  lemma TornImage(s: Store, left: seq<Byte>)
    requires s.Valid() && s.haveDevice && s.state.Writing? && Fmc.Writing(s.device.View()) && HasHeader(s.store[..])
    requires var k := TornAt(s.device.board, s.device.View(), s.start, s.device.next);
             SameOutside(left, s.device.flash, s.start + k, s.start + s.device.next)
    ensures s.start + STORE_SIZE <= |left|
    ensures var image := left[s.start..s.start + STORE_SIZE];
            var k := TornAt(s.device.board, s.device.View(), s.start, s.device.next);
            && Torn(image, s.store[..], k)
            && (HasHeader(image) <==> 2 * WORD <= k || (k == WORD && image[WORD..HEADER_SIZE] == HEADER[WORD..]))
  {
    hide AllErased, HasHeader, Sound, Target, SameOutside;
    var b, d, data, start, next := s.device.board, s.device.View(), s.store[..], s.start, s.device.next;
    var k := TornAt(b, d, start, next);
    OneWordPending(b, d, data, start, start + IMAGE_SIZE, next);
    LeftTorn(left, d.flash, Target(b, d), data, start, k, next);
    TornHeader(left[start..start + STORE_SIZE], data, k);
  }

  lemma PartOfPart(bytes: seq<Byte>, start: nat, n: nat, lo: nat, hi: nat)
    requires lo <= hi <= n && start + n <= |bytes|
    ensures bytes[start..start + n][lo..hi] == bytes[start + lo..start + hi]
  {
    var part, same := bytes[start..start + n][lo..hi], bytes[start + lo..start + hi];
    assert |part| == |same|;
    assert forall i :: 0 <= i < |part| ==> part[i] == bytes[start + lo + i] == same[i];
  }

  lemma LeftTorn(left: seq<Byte>, flash: seq<Byte>, target: seq<Byte>, data: seq<Byte>, start: nat, k: int, next: int)
    requires Programmed(target, data, start, next, start + IMAGE_SIZE) && start + STORE_SIZE <= |target|
    requires SameOutside(target, flash, start + k, start + next) && SameOutside(left, flash, start + k, start + next)
    requires 0 <= k <= next <= IMAGE_SIZE && next <= k + WORD && k % WORD == 0
    ensures |left| == |target| && Torn(left[start..start + STORE_SIZE], data, k)
  {
    var image := left[start..start + STORE_SIZE];
    assert target[start..start + k] == target[start..start + next][..k] == data[..next][..k];
    assert left[start..start + k] == target[start..start + k];
    PartOfPart(left, start, STORE_SIZE, 0, k);
    assert image[..k] == image[0..k];
    if k + WORD <= IMAGE_SIZE {
      var stop := start + k + WORD;
      assert target[stop..start + IMAGE_SIZE] == target[start + next..start + IMAGE_SIZE][k + WORD - next..];
      assert left[stop..start + IMAGE_SIZE] == target[stop..start + IMAGE_SIZE];
      PartOfPart(left, start, STORE_SIZE, k + WORD, IMAGE_SIZE);
    }
  }
}
