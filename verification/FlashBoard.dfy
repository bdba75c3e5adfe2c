/** The flash of the GD32F1/F2 parts as lib-gd32/src/f/fmc/gd32_fmc.cpp uses it. Addresses are offsets into it.

    It has two banks, each of which carries out one command at a time. A command takes any number of polls, and the
    bytes it concerns change only when it is done. A command to a bank that is still at another, or for a word across
    both banks, leaves anything. A bank that is locked takes no commands. */
module FlashBoard {

  import opened Machine

  type Byte = bv8

  const ERASED: Byte := 0xFF

  const SECTOR: nat := 4096
  const BANK0_PAGE: nat := 2048
  const BANK1_PAGE: nat := 4096
  const WORD: nat := 4

  datatype State = Idle | EraseBusy | EraseProgram | WriteBusy | WriteProgram

  // What a bank is at: the bytes that will be in place once it is done, and the polls until then.
  datatype Command = Nothing | Pending(at: nat, bytes: seq<Byte>, remaining: nat)

  // The flash, where its second bank starts (behind the end if there is none), how many polls each
  // command will take, and what is left where nothing is promised.
  datatype Board = Board(size: nat, boundary: nat, timing: nat -> nat, garbage: (nat, nat) -> Byte)

  // The driver's static variables, and the hardware.
  datatype Device = Device(state: State, length: int, address: int, flash: seq<Byte>,
                           bank0: Command, bank1: Command, open0: bool, open1: bool, issued: nat)

  /* ---- Images of the flash ---- */

  ghost predicate AllErased(bytes: seq<Byte>) {
    forall i :: 0 <= i < |bytes| ==> bytes[i] == ERASED
  }

  function Blank(n: nat): (bytes: seq<Byte>)
    ensures |bytes| == n && AllErased(bytes)
  {
    seq(n, _ => ERASED)
  }

  // Two images of the flash that agree except perhaps in [lo, hi).
  ghost predicate SameOutside(a: seq<Byte>, b: seq<Byte>, lo: int, hi: int) {
    |a| == |b| && forall i :: 0 <= i < |a| && !(lo <= i < hi) ==> a[i] == b[i]
  }

  function Put(image: seq<Byte>, at: int, bytes: seq<Byte>): (after: seq<Byte>)
    requires 0 <= at && at + |bytes| <= |image|
    ensures |after| == |image|
  {
    image[..at] + bytes + image[at + |bytes|..]
  }

  lemma PutAt(image: seq<Byte>, at: int, bytes: seq<Byte>)
    requires 0 <= at && at + |bytes| <= |image|
    ensures forall i :: 0 <= i < |image| ==>
              Put(image, at, bytes)[i] == if at <= i < at + |bytes| then bytes[i - at] else image[i]
  {
  }

  lemma PutRegion(image: seq<Byte>, at: int, bytes: seq<Byte>, lo: int, hi: int)
    requires 0 <= at && at + |bytes| <= |image| && lo <= at && at + |bytes| <= hi
    ensures SameOutside(Put(image, at, bytes), image, lo, hi)
    ensures Put(image, at, bytes)[at..at + |bytes|] == bytes
  {
    PutAt(image, at, bytes);
  }

  lemma Unchanged(image: seq<Byte>, lo: int, hi: int)
    ensures SameOutside(image, image, lo, hi)
  {
  }

  lemma SameChain(a: seq<Byte>, b: seq<Byte>, c: seq<Byte>, lo: int, hi: int)
    requires SameOutside(a, b, lo, hi) && SameOutside(b, c, lo, hi)
    ensures SameOutside(a, c, lo, hi)
  {
  }

  lemma ErasedWord(bytes: seq<Byte>)
    requires AllErased(bytes) && |bytes| == WORD
    ensures bytes == Blank(WORD)
  {
  }

  /* ---- The hardware ---- */

  predicate Inside(c: Command, lo: int, hi: int) {
    c.Pending? ==> lo <= c.at && c.at + |c.bytes| <= hi && c.bytes != []
  }

  // Each bank is at most at a command of its own.
  predicate Sound(b: Board, d: Device) {
    && |d.flash| == b.size < UINT32 && b.boundary % SECTOR == 0
    && Inside(d.bank0, 0, b.boundary) && Inside(d.bank0, 0, b.size) && Inside(d.bank1, b.boundary, b.size)
  }

  function Landed(image: seq<Byte>, c: Command): (after: seq<Byte>)
    requires Inside(c, 0, |image|)
    ensures |after| == |image|
  {
    if c.Nothing? then image else Put(image, c.at, c.bytes)
  }

  // The flash as it will be when no bank is at anything any more.
  function Target(b: Board, d: Device): (image: seq<Byte>)
    requires Sound(b, d)
    ensures |image| == b.size
  {
    Landed(Landed(d.flash, d.bank0), d.bank1)
  }

  predicate Quiet(d: Device) {
    d.bank0.Nothing? && d.bank1.Nothing?
  }

  // Nothing outside [lo, hi) is about to change.
  predicate Within(d: Device, lo: int, hi: int) {
    Inside(d.bank0, lo, hi) && Inside(d.bank1, lo, hi)
  }

  // The bank an address is in, and whether it is at a command: IsBank0 and IsBusy.
  function BankOf(b: Board, d: Device, address: int): Command {
    if address < b.boundary then d.bank0 else d.bank1
  }

  predicate Busy(b: Board, d: Device, address: int) {
    BankOf(b, d, address).Pending?
  }

  // Whether that bank takes commands, and that changed: Unlock and Lock.
  predicate Open(b: Board, d: Device, address: int) {
    if address < b.boundary then d.open0 else d.open1
  }

  function Unlocked(b: Board, d: Device, address: int): Device {
    if address < b.boundary then d.(open0 := true) else d.(open1 := true)
  }

  function Locked(b: Board, d: Device, address: int): Device {
    if address < b.boundary then d.(open0 := false) else d.(open1 := false)
  }

  // How far an operation over [from, to) gets: to the end of the bank it begins in, if the other is locked.
  function Limit(b: Board, d: Device, from: int, to: int): int {
    if from < b.boundary < to && !d.open1 then b.boundary else to
  }

  // No command is pending in the banks a region lies in.
  predicate FreeOver(b: Board, d: Device, from: int, to: int) {
    (from < b.boundary ==> d.bank0.Nothing?) && (b.boundary < to ==> d.bank1.Nothing?)
  }

  function Later(c: Command): Command {
    match c
    case Nothing => Nothing
    case Pending(at, bytes, remaining) => if remaining == 0 then Nothing else Pending(at, bytes, remaining - 1)
  }

  // The time that passes with one poll.
  function Passed(b: Board, d: Device): Device
    requires Sound(b, d)
  {
    var image := if d.bank0.Pending? && d.bank0.remaining == 0 then Landed(d.flash, d.bank0) else d.flash;
    var image' := if d.bank1.Pending? && d.bank1.remaining == 0 then Landed(image, d.bank1) else image;
    d.(flash := image', bank0 := Later(d.bank0), bank1 := Later(d.bank1))
  }

  // Whether the hardware can take a command.
  predicate Clear(b: Board, d: Device, at: int, n: int) {
    0 <= at && at + n <= b.size && !Busy(b, d, at) && !(at < b.boundary < at + n)
  }

  // What is left where nothing is promised.
  function Junk(b: Board, issued: nat, n: nat): (bytes: seq<Byte>)
    ensures |bytes| == n
  {
    seq(n, i requires 0 <= i < n => b.garbage(issued, i))
  }

  // A command given.
  function Issued(b: Board, d: Device, at: int, bytes: seq<Byte>): Device {
    var next := d.(issued := d.issued + 1);
    if !Open(b, d, at) then next
    else if !Clear(b, d, at, |bytes|) then
      next.(flash := Junk(b, d.issued, b.size), bank0 := Nothing, bank1 := Nothing)
    else if at < b.boundary then next.(bank0 := Pending(at, bytes, b.timing(d.issued)))
    else next.(bank1 := Pending(at, bytes, b.timing(d.issued)))
  }

  // What a command to erase leaves where it is given: the hardware's page there, 2 KiB in the first bank and 4 KiB
  // in the second, whatever the driver counts it as.
  function ErasedPage(b: Board, at: int): (bytes: seq<Byte>)
    ensures |bytes| == (if at < b.boundary then 2048 else 4096) && AllErased(bytes)
  {
    Blank(if at < b.boundary then 2048 else 4096)
  }

  // What programming a word over some bytes puts there.
  function WordOver(b: Board, issued: nat, present: seq<Byte>, word: seq<Byte>): (bytes: seq<Byte>)
    requires |word| == WORD
    ensures |bytes| == WORD
  {
    if present == Blank(WORD) then word else Junk(b, issued, WORD)
  }

  lemma TargetOutside(b: Board, d: Device, lo: int, hi: int)
    requires Sound(b, d) && Within(d, lo, hi)
    ensures SameOutside(Target(b, d), d.flash, lo, hi)
  {
    if d.bank0.Pending? {
      PutAt(d.flash, d.bank0.at, d.bank0.bytes);
    }
    var image := Landed(d.flash, d.bank0);
    if d.bank1.Pending? {
      PutAt(image, d.bank1.at, d.bank1.bytes);
    }
    hide Put;
  }

  lemma PassedTarget(b: Board, d: Device)
    requires Sound(b, d)
    ensures Sound(b, Passed(b, d)) && Target(b, Passed(b, d)) == Target(b, d)
  {
    hide Put;
    if d.bank0.Pending? && d.bank1.Pending? {
      PutsCommute(d.flash, d.bank0.at, d.bank0.bytes, d.bank1.at, d.bank1.bytes);
    }
  }

  lemma PutsCommute(image: seq<Byte>, at: int, bytes: seq<Byte>, at': int, bytes': seq<Byte>)
    requires 0 <= at && at + |bytes| <= at' && at' + |bytes'| <= |image|
    ensures Put(Put(image, at, bytes), at', bytes') == Put(Put(image, at', bytes'), at, bytes)
  {
    PutAt(image, at, bytes);
    PutAt(image, at', bytes');
    PutAt(Put(image, at, bytes), at', bytes');
    PutAt(Put(image, at', bytes'), at, bytes);
    hide Put;
  }

  lemma IssuedTarget(b: Board, d: Device, at: int, bytes: seq<Byte>)
    requires Sound(b, d) && bytes != []
    ensures Sound(b, Issued(b, d, at, bytes))
    ensures Open(b, d, at) && Clear(b, d, at, |bytes|) ==>
              Target(b, Issued(b, d, at, bytes)) == Put(Target(b, d), at, bytes)
    ensures !Open(b, d, at) ==> Target(b, Issued(b, d, at, bytes)) == Target(b, d)
  {
    hide Put;
    if Open(b, d, at) && Clear(b, d, at, |bytes|) && at < b.boundary && d.bank1.Pending? {
      PutsCommute(d.flash, at, bytes, d.bank1.at, d.bank1.bytes);
    }
  }

  lemma IssuedSound(b: Board, d: Device, at: int, bytes: seq<Byte>)
    requires Sound(b, d) && bytes != []
    ensures Sound(b, Issued(b, d, at, bytes))
  {
  }

  /* ---- What passing time, commands and locks keep ---- */

  // What the flash will be depends on the hardware alone.
  lemma SameTarget(b: Board, d: Device, d': Device)
    requires Sound(b, d) && d'.flash == d.flash && d'.bank0 == d.bank0 && d'.bank1 == d.bank1
    ensures Sound(b, d') && Target(b, d') == Target(b, d)
  {
  }

  ghost function Waiting(b: Board, d: Device): (n: nat) {
    match BankOf(b, d, d.address)
    case Nothing => 0
    case Pending(_, _, remaining) => remaining + 1
  }

  // What a poll's passing time does not change, and what it may.
  lemma PassedControl(b: Board, d: Device)
    requires Sound(b, d)
    ensures var d' := Passed(b, d);
            && d'.state == d.state && d'.length == d.length && d'.address == d.address && d'.issued == d.issued
            && d'.open0 == d.open0 && d'.open1 == d.open1
            && forall address :: Busy(b, d', address) ==> Busy(b, d, address)
    ensures Waiting(b, Passed(b, d)) <= Waiting(b, d)
    ensures Waiting(b, d) > 0 ==> Waiting(b, Passed(b, d)) < Waiting(b, d)
    ensures Busy(b, d, d.address) == (Waiting(b, d) > 0)
  {
  }

  lemma PassedWithin(b: Board, d: Device, lo: int, hi: int)
    requires Sound(b, d) && Within(d, lo, hi)
    ensures Within(Passed(b, d), lo, hi)
  {
  }

  lemma Wider(a: seq<Byte>, b: seq<Byte>, lo: int, mid: int, hi: int)
    requires SameOutside(a, b, lo, mid) && mid <= hi
    ensures SameOutside(a, b, lo, hi)
  {
  }

  lemma SizeKept(b: Board, d: Device)
    requires Sound(b, d)
    ensures |d.flash| == b.size < UINT32 && b.boundary % SECTOR == 0
  {
  }

  lemma NothingWithin(d: Device, lo: int, hi: int)
    ensures Quiet(d) ==> Within(d, lo, hi)
  {
  }

  lemma WithinWider(d: Device, lo: int, hi: int, lo': int, hi': int)
    requires Within(d, lo, hi) && lo' <= lo && hi <= hi'
    ensures Within(d, lo', hi')
  {
  }

  // Seen from the flash itself.
  lemma FlashOutside(b: Board, before: Device, d: Device, lo: int, hi: int)
    requires Sound(b, before) && Sound(b, d) && Within(before, lo, hi) && Within(d, lo, hi)
    requires SameOutside(Target(b, d), Target(b, before), lo, hi)
    ensures SameOutside(d.flash, before.flash, lo, hi)
  {
    TargetOutside(b, before, lo, hi);
    TargetOutside(b, d, lo, hi);
    hide Target;
  }

  // A region whose banks are free is as it will be.
  lemma RegionTarget(b: Board, d: Device, from: int, to: int, lo: int, hi: int)
    requires Sound(b, d) && FreeOver(b, d, from, to) && 0 <= from <= lo <= hi <= to <= b.size
    ensures Target(b, d)[lo..hi] == d.flash[lo..hi]
  {
    hide Put;
    if d.bank0.Pending? {
      PutAt(d.flash, d.bank0.at, d.bank0.bytes);
    }
    if d.bank1.Pending? {
      PutAt(Landed(d.flash, d.bank0), d.bank1.at, d.bank1.bytes);
    }
  }

  lemma FreeQuiet(b: Board, d: Device, from: int, to: int)
    requires Sound(b, d) && FreeOver(b, d, from, to) && Within(d, from, to)
    ensures Quiet(d)
  {
  }

  lemma QuietTarget(b: Board, d: Device)
    requires Sound(b, d) && Quiet(d)
    ensures Target(b, d) == d.flash
  {
  }

  lemma LandedKept(image: seq<Byte>, c: Command, at: int)
    requires Inside(c, 0, |image|) && 0 <= at < |image| && !(c.Pending? && c.at <= at < c.at + |c.bytes|)
    ensures Landed(image, c)[at] == image[at]
  {
    if c.Pending? {
      PutAt(image, c.at, c.bytes);
    }
  }

  lemma IssuedControl(b: Board, d: Device, at: int, bytes: seq<Byte>)
    ensures var d' := Issued(b, d, at, bytes);
            d'.state == d.state && d'.length == d.length && d'.address == d.address
  {
  }

  lemma LockedControl(b: Board, d: Device, from: int, to: int)
    ensures var d' := Locked(b, d, d.address).(state := Idle);
            && d'.flash == d.flash && d'.bank0 == d.bank0 && d'.bank1 == d.bank1
            && (Within(d, from, to) ==> Within(d', from, to))
  {
  }

  lemma PassedSize(b: Board, d: Device)
    requires Sound(b, d)
    ensures |Passed(b, d).flash| == b.size
  {
  }

  lemma QuietPassed(b: Board, d: Device)
    requires Sound(b, d) && Quiet(d)
    ensures Passed(b, d) == d
  {
  }
}
