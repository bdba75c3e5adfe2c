# Verified models of the firmware's software engines

This project models the parts of the firmware that are pure software with deep invariants, and proves what
they are for. `dafny verify dfyconfig.toml` checks all of it.

| file | what it models |
|---|---|
| `Crc.dfy` | the bitwise CRC-32 of the network code |
| `Calendar.dfy` | `gmtime`, `localtime` and `mktime` |
| `Memory.dfy`, `Heap.dfy` | byte-addressed memory; `malloc`, `free`, `calloc`, `realloc` |
| `FlashBoard.dfy` | the two-bank flash of the GD32F1/F2 parts, as the driver uses it |
| `Fmc.dfy` | the polled flash driver for it |
| `Completion.dfy` | when an operation of that driver that says it is done is done |
| `ConfigStore.dfy` | the write-back configuration store on top of that driver |
| `FlashInstall.dfy` | the chunked firmware installer on top of that driver |
| `Digits.dfy`, `Printf.dfy` | the formatting engine, built with `DISABLE_PRINTF_FLOAT` |
| `Uuid.dfy` | the UUID printer (through the formatting engine) and parser |
| `PollReply.dfy` | the Art-Net node's poll-reply scheduler |
| `Strtok.dfy` | `strtok` |
| `SlotInfo.dfy` | the text form of DMX slot information |
| `Ema.dfy`, `Dwt.dfy`, `Ptp.dfy` | the EMA filter, the cycle-counter clock, PTP time arithmetic |
| `Machine.dfy` | machine integers and facts about division shared by the others |

Objects the source updates in place are classes here, loops are loops, and every such method is proved equal to
a function (`Step`, `Format`, `Next`, `Parsed`, ...) or to a statement about the state before and after; the
theorems are lemmas about those functions, and invariants (`Valid()`) that every method keeps. C's unsigned
arithmetic is written out as `Wrap`.

## How the hardware appears

* Flash is a byte sequence in two banks (one bank if the boundary lies behind the end). A command (erase a page,
  program a word) keeps its bank busy for a number of polls that is chosen freely for each command, and the bytes
  change only when that is over. An erase concerns a page of the bank it is
  given to, 2 KiB in the first and 4 KiB in the second, whatever the driver counts it as. An erased page reads 0xFF; an erased word takes what is programmed; a word that is
  not erased, a command to a bank still at another one, and a word across both banks leave anything, chosen freely
  too. A locked bank ignores commands; after a reset both are locked. So the driver's polling and unlocking carry
  the results: they hold for every timing, with the conditions below where the driver asks or unlocks the wrong bank.
* A word at an address that is no multiple of four, which the source leaves to the hardware, is stored like another.
* Timer interrupts, network packets and the cycle counter are arguments: events, times and readings in any order
  and number, restricted only where a lemma says so.
* The heap's linker symbols and its bucket table are parameters: any aligned base, any limit and any ascending list
  of positive sizes, of which the GD32 table is one. An allocation that does not fit returns null. The client may
  write into its live blocks (`Poke`).
* The store's image is 3136 bytes, the size of `ConfigurationStore`, in a buffer of 4096.

## Where the code is not what its comments or its callers' expectations say

The model follows the code; each of these is stated as a contract.

* `vsnprintf` with size 0 is commented as writing nowhere, but prints everything to the console
  (`Printf.Vsnprintf`).
* A conversion letter the engine does not know is printed, and the format is then read on from that letter: a letter
  appears twice, a percent sign appears once and begins a directive of its own, and the NUL behind a lone percent
  sign is printed (`Printf.UnknownLetter`). So `%%d` prints a percent sign and then the argument in decimal
  (`Printf.PercentPercent`).
* `vsnprintf` takes its size as a signed number, so above `INT_MAX` it keeps nothing (`Printf.Vsnprintf`).
* A negative number padded with zeros is one character wider than its field: the sign is not counted among the
  zero-filled places (`Printf.FieldLength`).
* Setting a flag of several bits in the store sets them all only if none, or all, of them were set
  (`ConfigStore.SetFlagExactly`). `UpdateArray` compares only the bytes it is given.
* `mktime` rejects every time `gmtime` gives from 2040 on (`Calendar.MkTimeOfGmTime`).
* The driver asks whether the bank of the *next* page is busy. An erase whose region reaches from the first bank to
  its end, or over it, therefore asks the second bank while the first is at its last page, and can say too soon that
  it is done; every other erase is done when it says so, unless it finds another one under way
  (`Completion.EraseExact`). An image erased for and written, in however many chunks, is in the flash for every timing
  under the same condition (`FlashInstall.InstallExact`). An erase of a length that is not whole pages never says that
  it is done (`Fmc.EraseUneven`).
* A write does not ask before its first word, unlocks only the bank it begins in, and is not looked at while another
  one is under way. So when it says it is done it has stored its data, whatever they are and however long commands
  take, exactly if the driver is not at another write, the region is erased, the banks it lies in are at no command,
  and, should it go on from the first bank to the second, that one is unlocked already and no word lies across
  (`Completion.WriteExact`). Two starts that fail: the driver at an erase of another sector
  (`Completion.WriteWhileErasing`), and at a write of another sector, which is finished in its place
  (`Completion.WriteWhileWriting`).
* An erase or write that finds the driver in the middle of the other operation abandons that one. An erase that
  finds it in the middle of another erase finishes that one instead, and reports success: the region asked for is
  then erased only if the rest of it was before (`FlashInstall.Installer.Erase`, with an input in
  `FlashInstall.ErasedElsewhere`).
* A chunk the driver refuses is counted as written all the same, so a session in which a call failed can still
  complete with success (`FlashInstall.RefusedAndComplete`). With a free driver and an image that does not reach the
  first bank's end, the flash then holds the chunks exactly if they add up to the announced size and each one that is
  empty or not whole words consists of 0xFF (`FlashInstall.Installer.InstallAnyway`). (The driver is free if it is at
  no erase but one of the image's sectors, and no command is pending outside them.) A chunk that finds the driver at
  another client's write is answered with success and counted, and nothing of it is written
  (`FlashInstall.Installer.WriteChunk`, with an input in `FlashInstall.ChunkWhileWriting`).
* If another client uses the driver between two steps of the store's machine, and does not leave it at an operation of
  the kind the machine asks for next, a commit leaves the buffer in the flash exactly if the machine has its erase
  still before it, or the image's part of its region is erased and its bank free; at rest it does nothing
  (`ConfigStore.CommitExact`). A write-back interrupted by a loss of power leaves an image that
  the next start-up accepts if two of its words are in place, or one and what is left of the next happens to fit
  (`ConfigStore.TornImage`).
* A poll that arrives in the millisecond the clock reads 0 is lost (`PollReply.ZeroStampLost`); an address with a
  poll waiting gets a second slot if an empty one lies before the first (`PollReply.DuplicateAccepted`); and an
  address in the first slot that polls again whenever it has been answered keeps the other slots waiting for as
  long as it goes on, so the bound on the wait has to grow with the polls that arrive, by exactly one answer for
  each (`PollReply.Starvation`, `PollReply.Answered`).
* The busy-wait counts one cycle less than has passed each time the counter wraps, so it may end a cycle late, never
  early (`Dwt.NeverEarly`, `Dwt.InTime`).
* The slot-information parser does not look at the character behind two type digits, and takes fewer than two if a
  colon follows (`SlotInfo.Parse`).
* The buffer for slot information has 7 characters a slot and each slot written takes 8, so the text stays inside
  exactly if 8 times the slots selected is at most 7 times the slots there are, and never if all are selected
  (`SlotInfo.DmxSlotInfo.ToString`, `SlotInfo.FirstSlotsFit`).

## Model

| member | source | states |
|---|---|---|
| Crc.Compute | lib-network/src/network_crc.cpp:38-53 | The nested loops leave the complement of the register run over the message's bits, low bit of each byte first |
| Crc.RegisterIsRun | lib-network/src/network_crc.cpp:42-48 | The 32-bit word register and a register of 32 separate bits run alike on every message |
| Crc.RunLinear | lib-network/src/network_crc.cpp:42-48 | The exclusive-or of two runs is the run of the exclusive-or of registers and messages |
| Crc.BackFromZero | lib-network/src/network_crc.cpp:42-48 | A run of n bits that ends in the zero register began in one with only its n leading bits possibly set: the step is invertible |
| Crc.BurstDetected | lib-network/src/network_crc.cpp:38-53 | Different messages of equal length whose differing bits lie within 32 consecutive transmitted bits have different checksums (IEEE 802.3, section 3.2.9) |
| Crc.FrameCheckSequence | lib-network/src/network_crc.cpp:38-53 | The checksum is the frame check sequence of IEEE 802.3, section 3.2.9: for every message, the complement of the remainder that the message, its first 32 bits complemented, times x^32 leaves modulo the generator with the exponents 32, 26, 23, 22, 16, 12, 11, 10, 8, 7, 5, 4, 2, 1, 0 |
| Crc.RemainderUnique | lib-network/src/network_crc.cpp:38-53 | A polynomial leaves only one remainder modulo another, so that determines the checksum |
| Crc.RunDivides | lib-network/src/network_crc.cpp:42-48 | A run of the register is the long division of polynomials over the bits |
| Calendar.GregorianDays | lib-clib/src/time.cpp:36-50 | The summed year lengths are the Gregorian leap-day count for every year from 1970 |
| Calendar.MonthsFillYear | lib-clib/src/time.cpp:34-50 | The twelve month lengths add up to the year's, leap year or not |
| Calendar.MonthDays | lib-clib/src/time.cpp:34-50 | Counted from March the months before the m-th have (153 * m + 2) / 5 days, and January and February 31 and 28 or 29 |
| Calendar.DayNumberIsCivil | lib-clib/src/time.cpp:34-50 | The valid dates are those of the Gregorian calendar with its twelve month lengths, and a date's day number is a closed form without sums |
| Calendar.GmTime | lib-clib/src/time.cpp:65-117 | The broken-down time is a valid date and clock time whose day number is the time's, with the right weekday and day of the year |
| Calendar.GmTimeIsCivil | lib-clib/src/time.cpp:65-117 | In closed form: the calendar date of the day, hour, minute and second of the rest, the weekday counted from a Thursday, and the day of the year |
| Calendar.FindYear | lib-clib/src/time.cpp:85-95 | The year loop ends at the year the day falls in and leaves the day within it |
| Calendar.FindMonth | lib-clib/src/time.cpp:100-111 | The month loop ends below 12 for every day of every year and leaves the day within the month |
| Calendar.TimeLibrary.BreakDown | lib-clib/src/time.cpp:65-117 | gmtime fills the static structure exactly for times from 0 to 2^32 - 1 and otherwise returns null and changes nothing |
| Calendar.TimeLibrary.LocalTime | lib-clib/src/time.cpp:56-63 | localtime is gmtime of the time with the offset added |
| Calendar.MakeTime | lib-clib/src/time.cpp:120-172 | The loops compute the seconds since 1970 without wrapping for every valid date up to 2039, and -1 for all else |
| Calendar.MkTimeIsCivil | lib-clib/src/time.cpp:120-172 | In closed form: for calendar dates of 1970 to 2039 and valid clock times the seconds since 1970, and -1 for all else |
| Calendar.MkTimeMonotone | lib-clib/src/time.cpp:120-172 | mktime orders accepted times exactly as the calendar does |
| Calendar.MkTimeOfGmTime | lib-clib/src/time.cpp:65-172 | mktime undoes gmtime exactly below 2208988800 and answers -1 for every later 32-bit time |
| Calendar.GmTimeOfMkTime | lib-clib/src/time.cpp:65-172 | gmtime of mktime restores the six fields and sets weekday and day of the year right |
| Calendar.TimeLibrary.Recover | lib-clib/src/time.cpp:65-172 | The two routines called one after the other give the time back, by the same rule |
| Heap.ExtentSound | lib-clib/src/malloc.cpp:121-122 | The 32-bit rounding leaves room for header and data exactly if it does not wrap around |
| Heap.Partition | lib-clib/src/malloc.cpp:118-141 | Every byte of the carved region belongs to exactly one block |
| Heap.BlocksDisjoint | lib-clib/src/malloc.cpp:118-141 | Different blocks do not overlap, headers included, and a block's data lies inside it |
| Heap.ListedOnce | lib-clib/src/malloc.cpp:115-117 | A block is on one free list, once, if and only if it is free, and that list is the one of its size |
| Heap.Allocator.constructor | lib-clib/src/malloc.cpp:61-65 | The empty heap is in order |
| Heap.Allocator.FindBucket | lib-clib/src/malloc.cpp:101-111 | The bucket taken is the first that is large enough, or none |
| Heap.Allocator.Malloc | lib-clib/src/malloc.cpp:94-151 | The block handed out has the least table size that holds the request, or the request's own size if it exceeds them all. Null exactly if the request is 0, or no free block of that size waits and a new one would pass the limit; then nothing changes. Otherwise a live, aligned block, with every other block's status and every live block's contents as before |
| Heap.Allocator.TakeFree | lib-clib/src/malloc.cpp:115-117 | Taking the head of a bucket's list keeps the heap in order and writes only that block's header |
| Heap.Allocator.CarveBlock | lib-clib/src/malloc.cpp:118-141 | Carving keeps the heap in order, and fails exactly if the block would pass the limit |
| Heap.Allocator.Free | lib-clib/src/malloc.cpp:153-184 | A live block goes to the head of its size's list, or is lost if it is oversize; nothing else changes but its link |
| Heap.Allocator.Reuse | lib-clib/src/malloc.cpp:94-184 | A block of a table size that is freed is handed out again by the next request that fits this size and none smaller |
| Heap.Allocator.GetAllocated | lib-clib/src/malloc.cpp:77-91 | The header still holds a live block's size |
| Heap.Allocator.Calloc | lib-clib/src/malloc.cpp:186-216 | As malloc, and the n * size bytes are zero, with no other live contents touched |
| Heap.Allocator.ZeroFill | lib-clib/src/malloc.cpp:200-211 | The word loop and the byte loop zero exactly the bytes asked for |
| Heap.Allocator.CopyUp | lib-clib/src/malloc.cpp:241-256 | The two copy loops, reading on past the old block, deliver its bytes unchanged if old and new block do not meet |
| Heap.Allocator.Realloc | lib-clib/src/malloc.cpp:218-264 | In place if the block is large enough; otherwise a new block that starts with all of the old one's contents, and the old one freed; null and nothing changed if there is no room; every other live block's contents as before |
| Heap.Allocator.Poke | lib-clib/src/malloc.cpp:149-150 | A client that writes inside its block leaves the heap in order |
| Fmc.EraseAdvances | lib-gd32/src/f/fmc/gd32_fmc.cpp:176-257 | Every poll of an erase keeps the pages passed so far erased or about to be, as far as the bank unlocked, and changes nothing else; when it says it is done that is so of the whole region |
| Fmc.EraseNearer | lib-gd32/src/f/fmc/gd32_fmc.cpp:176-257 | Every poll brings an erase nearer its end, or the bank it waits for |
| Fmc.ErasePoll | lib-gd32/src/f/fmc/gd32_fmc.cpp:176-257 | State by state: what a poll makes of the driver's state, address and count, which bank it unlocks or locks, and when it says that it is done |
| Fmc.EraseUneven | lib-gd32/src/f/fmc/gd32_fmc.cpp:202-234 | If the length is not whole pages, no poll of the erase ever says that it is done: the unsigned count passes by 0 |
| Completion.EraseComplete | lib-gd32/src/f/fmc/gd32_fmc.cpp:176-257 | Whatever the hardware is at, for every timing and garbage, a region that does not reach from the first bank to its end is erased in the flash when the polls end, with its banks free |
| Completion.EraseTooSoon | lib-gd32/src/f/fmc/gd32_fmc.cpp:195-211 | For every other region there is a timing for which the polls end with a byte of it not erased and its bank still busy |
| Completion.EraseExact | lib-gd32/src/f/fmc/gd32_fmc.cpp:176-257 | So an erase that says it is done is done, for every flash, every state of the driver but another erase, and every timing, if and only if its region does not reach from the first bank to that bank's end |
| Fmc.Controller.Erase | lib-gd32/src/f/fmc/gd32_fmc.cpp:176-257 | The switch is the step the theorems are about, and keeps the driver's invariant; seen from the flash, nothing outside the region changes if no command was pending there |
| Fmc.WriteMoves | lib-gd32/src/f/fmc/gd32_fmc.cpp:259-336 | Every poll of a write takes it a step on and nearer its end, over any flash |
| Fmc.WritePoll | lib-gd32/src/f/fmc/gd32_fmc.cpp:259-336 | State by state: what a poll makes of the driver's state, address and count, which bank it unlocks or locks, which buffers it refuses, and when it says that it is done |
| Fmc.WriteAdvances | lib-gd32/src/f/fmc/gd32_fmc.cpp:259-336 | Over erased flash in free banks, every poll keeps what is programmed a prefix of the buffer and the rest erased, and changes nothing else; when it says it is done the region holds the buffer and its banks are free |
| Completion.WriteLost | lib-gd32/src/f/fmc/gd32_fmc.cpp:259-336 | Polled to its end, a write leaves a byte other than the data say if the word that holds it meets a bank at a command, a locked second bank, the border of the banks, or flash that is not erased |
| Completion.WriteExact | lib-gd32/src/f/fmc/gd32_fmc.cpp:259-336 | From every state of the driver and of the hardware: a write that says it is done has stored its data, for all data, timings and garbage, if and only if the driver is not at another write, the region is erased, no command is pending in the banks it lies in, and, should it go on to the second bank, that one is unlocked and no word lies across |
| Completion.PolledFinishes | lib-gd32/src/f/fmc/gd32_fmc.cpp:289-316 | Polls of a write that find another one under way finish that one, whatever they ask for |
| Completion.PolledLeaves | lib-gd32/src/f/fmc/gd32_fmc.cpp:289-316 | If that one goes well its own buffer is stored, and nothing outside its own region has changed |
| Completion.WriteWhileErasing | lib-gd32/src/f/fmc/gd32_fmc.cpp:259-336 | A write that finds the driver at an erase of another sector says it is done and has not stored its first byte, on every board with one bank whose first command takes three polls or more |
| Completion.WriteWhileWriting | lib-gd32/src/f/fmc/gd32_fmc.cpp:289-316 | With no command pending and its region erased, a write that finds the driver at a write of another sector says it is done, and its region is as erased as before |
| Fmc.Controller.Write | lib-gd32/src/f/fmc/gd32_fmc.cpp:259-336 | The switch is the step the theorems are about, and keeps the driver's invariant; unacceptable buffers are refused at once, and then nothing changes |
| Fmc.NextPage | lib-gd32/src/f/fmc/gd32_fmc.cpp:213-238 | From a page boundary of its bank, one page on is a page boundary again and not past the end, nor past the bank's |
| ConfigStore.Store.constructor | lib-configstore/include/configstore.h:67-117 | Start-up takes the flash image byte for byte if it begins with 'A', 'v', 'V', 0, 0, 1; otherwise the buffer is these six bytes and zeros, due to be written. Without a device it is all zeros |
| ConfigStore.HeaderKept | lib-configstore/include/configstore.h:641-644 | An update beyond the header leaves an image valid or invalid as it was |
| ConfigStore.Store.Flash | lib-configstore/include/configstore.h:559-612 | From any reachable state one step goes to the next of the seven states, keeps the invariant (idle: flash equals buffer; writing: a prefix of the current buffer over an erased region), touches only the store's region, and comes nearer to rest; whatever the flash and the hardware are at, it changes nothing of what the machine comes to |
| ConfigStore.Store.Tick | lib-configstore/include/configstore.h:520-527 | A timer tick does the same and stops the timer exactly when the machine rests |
| ConfigStore.Store.RunTimer | lib-configstore/include/configstore.h:515-557 | Once updates stop, finitely many ticks later the flash holds the last buffer and the timer is off |
| ConfigStore.Store.CommitAll | lib-configstore/include/configstore.h:654-657 | ConfigstoreCommit ends, whatever the device's timing, with the flash equal to the buffer if the invariant held, and in any case with the device as an erase and a write from its state leave it |
| ConfigStore.Store.Update | lib-configstore/include/configstore.h:486-496 | The field takes the value; the machine restarts exactly if that changes the buffer; at any moment, the invariant survives |
| ConfigStore.Store.UpdateArray | lib-configstore/include/configstore.h:498-513 | If the bytes given differ, the field becomes those bytes and zeros; if not, nothing changes |
| ConfigStore.Store.SetFlag | lib-configstore/include/configstore.h:617-624 | The stored flag word and the restart when a flag is set |
| ConfigStore.Store.ClearFlag | lib-configstore/include/configstore.h:626-633 | The stored flag word and the restart when a flag is cleared |
| ConfigStore.SetFlagExactly | lib-configstore/include/configstore.h:617-624 | All bits of the flag are set afterwards if and only if none or all were before; the other bits keep their values |
| ConfigStore.ClearFlagExactly | lib-configstore/include/configstore.h:626-633 | All bits of the flag are clear afterwards; the other bits keep their values |
| ConfigStore.FlagsStored | lib-configstore/include/configstore.h:617-633 | A flag word stored as four bytes reads back as itself |
| ConfigStore.FlagsInBytes | lib-configstore/include/configstore.h:617-633 | The stored word's first byte holds its lowest eight bits, and so on |
| ConfigStore.Store.Reset | lib-configstore/include/configstore.h:126-129 | The whole buffer is zeroed, header included, and due to be written |
| ConfigStore.Store.TimerStart | lib-configstore/include/configstore.h:529-542 | There is a timer afterwards unless the table was full, and never a second one |
| ConfigStore.Restart | lib-configstore/include/configstore.h:67-117 | After a commit and a restart the image is the one committed, byte for byte, if its header was in place; otherwise the buffer is the header and zeros, due to be written |
| ConfigStore.CommitExact | lib-configstore/include/configstore.h:559-612 | After another client has left the flash, the banks and the driver at anything but an operation of the kind the machine asks for next, a commit leaves every buffer in the flash, for all timings, if and only if the machine has its erase before it or the image's part of the region is erased and its bank free |
| ConfigStore.TornImage | lib-configstore/include/configstore.h:86-117 | Power lost during a write, with anything left of the word being programmed, leaves a prefix of the buffer of whole words, that word, and erased bytes; start-up accepts it if and only if two words were in place, or one and the next holds the rest of the header |
| FlashInstall.RoundingsAgree | lib-flashcodeinstall/src/flashcodeinstall.cpp:59-60 | The rounding by mask and that by division agree on all sizes and hold the image exactly if the addition does not wrap |
| FlashInstall.MaskIsRemainder | lib-flashcodeinstall/src/flashcodeinstall.cpp:60 | On machine words masking off the low bits takes the remainder off |
| FlashInstall.Installer.Erase | lib-flashcodeinstall/src/flashcodeinstall.cpp:96-129 | Always true. With both banks at rest afterwards, which they are if no command was pending outside the region erased and that does not reach the first bank's end, the image's sectors are erased if and only if every byte of them was before or lies in that region: their own, or that of an erase found under way. Nothing outside it changes. A free driver and an image that does not reach the first bank's end give a clean session |
| FlashInstall.Installer.PollErase | lib-flashcodeinstall/src/flashcodeinstall.cpp:113-117 | The polling loop ends, with the region of the erase under way, or else the one asked for, erased as far as its bank and nothing else touched |
| FlashInstall.ErasedElsewhere | lib-flashcodeinstall/src/flashcodeinstall.cpp:96-129 | With the driver at an erase of the last sector, the installer's erase answers true and has not erased a byte of the image's sectors |
| FlashInstall.Installer.PollWrite | lib-flashcodeinstall/src/flashcodeinstall.cpp:138-142 | The polling loop ends, with the buffer in the erased region, or refused; if the driver was at another write, with that one's buffer in its region and success |
| FlashInstall.Installer.WriteChunk | lib-flashcodeinstall/src/flashcodeinstall.cpp:131-148 | In a clean session a chunk is taken if and only if it is whole words and fits the announced size; it then extends the image, over bytes erased and not yet written, and a chunk the driver refuses leaves them erased; both count as written. A chunk that finds the driver at another write is answered with success and counted, and if that write goes well only its region has changed |
| FlashInstall.Installer.WriteChunkComplete | lib-flashcodeinstall/src/flashcodeinstall.cpp:150-171 | True exactly if a session was on and the announced number of bytes was counted as written; after a clean session the flash then holds the image |
| FlashInstall.RefusedAndComplete | lib-flashcodeinstall/src/flashcodeinstall.cpp:131-171 | A session of one chunk of six bytes: refused, complete with success, and the flash as erased |
| FlashInstall.ChunkWhileWriting | lib-flashcodeinstall/src/flashcodeinstall.cpp:131-148 | After one poll of another client's write elsewhere, a chunk is taken and counted, and the image's sectors are as they were |
| FlashInstall.Installer.Install | lib-flashcodeinstall/src/flashcodeinstall.cpp:96-171 | A session given up at the first failure succeeds if and only if the chunks are whole words and add up to the announced size; with a free driver and an image that does not reach the first bank's end, the flash at the image offset is then their concatenation and the rest as before |
| FlashInstall.Installer.InstallAnyway | lib-flashcodeinstall/src/flashcodeinstall.cpp:96-171 | A session that ignores what the calls answer completes whenever the chunks add up; if the driver was free and the image does not reach the first bank's end, the flash then holds them if and only if they add up and each chunk is whole words or nothing but 0xFF |
| FlashInstall.InstallExact | lib-flashcodeinstall/src/flashcodeinstall.cpp:96-148 | Erased for and written in chunks of whole words, of whatever lengths, every image is in the flash when the driver says so, from every state but another erase and for all timings, if and only if its sectors do not reach from the first bank to that bank's end |
| FlashInstall.JoinedKept | lib-flashcodeinstall/src/flashcodeinstall.cpp:131-148 | What the refused and accepted chunks leave is what was to be written if and only if every refused one is 0xFF throughout |
| FlashInstall.Installer.WriteFirmware | lib-flashcodeinstall/src/flashcodeinstall.cpp:35-94 | The one-shot form succeeds if and only if the image fits and is whole words; with a free driver and an image that does not reach the first bank's end, the flash then holds it and the rest is as before |
| FlashInstall.Extended | lib-flashcodeinstall/src/flashcodeinstall.cpp:140-145 | A chunk written right behind an image extends it and leaves the erased rest |
| Digits.NumeralValue | lib-clib/src/printf.cpp:138-142 | Repeated division produces digits of the base that read back as the number |
| Digits.NumeralLength | lib-clib/src/printf.cpp:138-142 | A number has at most k digits exactly if it is below the base's k-th power |
| Digits.NumeralShape | lib-clib/src/printf.cpp:138-142 | The digits are all of the case asked for, and the first is no 0 unless the number is |
| Digits.NibbleIs | lib-clib/src/uuid_parse.cpp:69-86 | The hex digits are the sixteen usual ones in either case, each with its usual value |
| Printf.FieldLength | lib-clib/src/printf.cpp:145-177 | The printed length is the larger of the width and the zero-padded digit count, capped by the buffer, plus the sign |
| Printf.IntTextValue | lib-clib/src/printf.cpp:128-178 | When no blanks are needed, what is printed is the sign and decimal digits that read back as the number, for every width, precision and flag |
| Printf.HexTextValue | lib-clib/src/printf.cpp:75-126 | The same in base 16, in either case |
| Printf.Context.PutChar | lib-clib/src/printf.cpp:62-73 | What the buffer or console holds is the bounded prefix, or the whole, of what was sent |
| Printf.Context.WriteDigits | lib-clib/src/printf.cpp:131-143 | The digit loop leaves the numeral at the end of the 64-byte buffer, never outside it |
| Printf.Context.PadBuffer | lib-clib/src/printf.cpp:145-165 | Padding backwards is padding on the left up to the width or the buffer's end, never outside it |
| Printf.Context.FormatInt | lib-clib/src/printf.cpp:128-178 | Prints the field for the number, for every flag, width and precision |
| Printf.Context.FormatHex | lib-clib/src/printf.cpp:75-126 | Prints the field for the number in base 16 |
| Printf.Context.FormatString | lib-clib/src/printf.cpp:287-310 | Prints the string up to its precision, set to its width on either side |
| Printf.Context.FormatPointer | lib-clib/src/printf.cpp:312-320 | Prints 0x and eight digits |
| Printf.Read | lib-clib/src/printf.cpp:340-383 | Reads flag, width, precision and length as the directive grammar has them |
| Printf.Convert | lib-clib/src/printf.cpp:385-429 | The switch prints what the conversion means |
| Printf.FormatSpec | lib-clib/src/printf.cpp:334-429 | Any written conversion, its flag, width and precision of any number of digits or a star, and the letter l, is read as it was meant; its text and then that of the rest of the format is printed, with the arguments taken in order |
| Printf.SignedPrinted | lib-clib/src/printf.cpp:389-398 | `%d` and `%i`: a minus sign exactly if the word is above `INT_MAX`, and decimal digits that read back as its absolute value, zeros and blanks as the directive asks |
| Printf.UnsignedPrinted | lib-clib/src/printf.cpp:413-415 | `%u`: no sign, and decimal digits that read back as the word |
| Printf.HexPrinted | lib-clib/src/printf.cpp:417-422 | `%x` and `%X`: hexadecimal digits of that case that read back as the word |
| Printf.StringPrinted | lib-clib/src/printf.cpp:287-310 | `%s`: the string, cut to the precision if one is given, with blanks in front, or behind if flagged |
| Printf.CharPrinted | lib-clib/src/printf.cpp:385-388 | `%c`: the character of the word's low byte |
| Printf.PointerPrinted | lib-clib/src/printf.cpp:312-320 | `%p`: 0x and eight lower-case hexadecimal digits that read back as the word |
| Printf.Vprintf | lib-clib/src/printf.cpp:322-433 | For every format and all arguments the loop sends exactly the format's text |
| Printf.UnknownLetter | lib-clib/src/printf.cpp:424-427 | A letter that is no conversion is printed twice; a percent sign once, and it then begins a directive; at the end of the format a NUL once |
| Printf.PercentPercent | lib-clib/src/printf.cpp:424-427 | Two percent signs and a conversion letter print a percent sign and the converted argument |
| Printf.Vsnprintf | lib-clib/src/printf.cpp:484-499 | For sizes from 1 to `INT_MAX` the buffer holds the first size - 1 characters of the whole output and a NUL, nothing behind is touched, and the whole length is returned (ISO C11, section 7.21.6.12); above `INT_MAX` it holds a NUL alone; size 0 prints to the console |
| Printf.Sprintf | lib-clib/src/printf.cpp:455-470 | The whole output and a NUL, nothing behind |
| Uuid.ParsedUnparsed | lib-clib/src/uuid_parse.cpp:121-170 | Every UUID comes back from its text in either case (RFC 9562, section 4) |
| Uuid.UnparsedText | lib-clib/src/uuid_unparse.cpp:69-103 | Character by character: the two digits of every byte, high one first and bytes in order, with hyphens at 8, 13, 18 and 23 |
| Uuid.UnparsedParsed | lib-clib/src/uuid_unparse.cpp:105-119 | Every accepted text comes back in lower case |
| Uuid.FormatUuid | lib-clib/src/uuid_unparse.cpp:69-114 | The formatting engine, given the format and the unpacked fields, prints the UUID's text |
| Uuid.UuidUnpack | lib-clib/src/uuid_unparse.cpp:78-103 | The fields are the big-endian numbers of their bytes |
| Uuid.UuidUnparse | lib-clib/src/uuid_unparse.cpp:105-123 | The output is the 36 characters and a NUL, and nothing else is touched |
| Uuid.HexUint32 | lib-clib/src/uuid_parse.cpp:69-86 | The value, modulo 2^32, of the longest run of hex digits, in either case |
| Uuid.UuidPack | lib-clib/src/uuid_parse.cpp:88-119 | Packing the fields of a UUID gives its bytes |
| Uuid.Accept | lib-clib/src/uuid_parse.cpp:133-151 | The scan accepts exactly hex digits with hyphens at the four places |
| Uuid.UuidParse | lib-clib/src/uuid_parse.cpp:121-170 | 0 and the bytes exactly for 36 characters with hyphens at 8, 13, 18 and 23 and hex digits of either case elsewhere; -1 and nothing changed for any other |
| Uuid.RoundTrip | lib-clib/src/uuid_parse.cpp:121-170 | Printing into a buffer and parsing it gives the same sixteen bytes |
| PollReply.Node.constructor | lib-artnet/include/artnetnode.h:71-92 | The node starts with nothing queued or answered |
| PollReply.Node.Run | lib-artnet/include/artnetnode_inline_impl.h:290-313 | One pass moves on from an empty slot in a ring of four, sees the delay pass, or sends the next port's reply and after the last one empties the slot; that is one step of the scheduler and keeps its invariant |
| PollReply.Node.PollReplyQueueAdd | lib-artnet/src/node/artnetnodehandlepoll.cpp:289-305 | A poll goes to the first empty slot unless one from the same address comes first, and then changes nothing; the invariant is kept |
| PollReply.RunKeeps | lib-artnet/include/artnetnode_inline_impl.h:290-313 | Over every run of passes and polls: each accepted poll is waiting or answered, once; the replies are whole answers one after the other; none came while the clock said the delay had not passed |
| PollReply.RunOnTime | lib-artnet/include/artnetnode_inline_impl.h:290-313 | In every run whose times do not go backwards, every reply is sent later than its poll arrived by more than the delay, in true time, however often the clock comes round |
| PollReply.StepKeeps | lib-artnet/include/artnetnode_inline_impl.h:290-313 | No pass breaks that |
| PollReply.EnqueueKeeps | lib-artnet/src/node/artnetnodehandlepoll.cpp:289-305 | No arriving poll breaks that, even in the middle of an answer |
| PollReply.ReplyAt | lib-artnet/include/artnetnode_inline_impl.h:299-306 | The k-th answer is one reply per port, ports in order, all to the k-th poll answered |
| PollReply.StepNearer | lib-artnet/include/artnetnode_inline_impl.h:290-313 | Every pass that is not held up by the delay of the slot it looks at brings a waiting poll exactly one step nearer its answer |
| PollReply.RemainingPositive | lib-artnet/include/artnetnode_inline_impl.h:290-313 | That takes at most 4 * ports + 7 passes |
| PollReply.ArrivalSetback | lib-artnet/src/node/artnetnodehandlepoll.cpp:289-305 | A poll that arrives in the meantime costs it at most ports + 1 passes |
| PollReply.Answered | lib-artnet/include/artnetnode_inline_impl.h:290-313 | In every run of passes and arrivals a waiting poll has been answered once the passes not held up are as many as it had remaining, and ports + 1 more for each arrival |
| PollReply.AnsweredByClock | lib-artnet/include/artnetnode_inline_impl.h:290-313 | The same by the clock: passes later than the last arrival by more than the delay are never held up, so that many of them suffice |
| PollReply.Starvation | lib-artnet/include/artnetnode_inline_impl.h:290-313 | The arrivals cannot count for less: for any number of ports, any delay and any n there is a run, its times in order and every stamp the clock's, with n arrivals and n * (ports + 1) passes none of which is held up, after which every poll of another address still waits |
| PollReply.DuplicateAccepted | lib-artnet/src/node/artnetnodehandlepoll.cpp:289-305 | An address that has a poll waiting gets a second slot if and only if an empty one lies in front |
| PollReply.ZeroStampLost | lib-artnet/src/node/artnetnodehandlepoll.cpp:296-302 | A poll leaves the set of those waiting as it was if and only if it is not accepted or its time stamp is 0 |
| Strtok.NextToken | lib-clib/src/strtok.cpp:58-101 | A call returns the first maximal delimiter-free run, or null if there is none; it overwrites only the delimiter behind it; the cursor goes behind that |
| Strtok.NextCursor | lib-clib/src/strtok.cpp:84-98 | The cursor left is again a string, with the same end, nearer to it |
| Strtok.DrainTokens | lib-clib/src/strtok.cpp:58-101 | Repeated calls return exactly the maximal delimiter-free runs, in order, then null; only the delimiters ending them are changed (ISO C11, section 7.24.5.8) |
| Strtok.TokensAreStrings | lib-clib/src/strtok.cpp:58-101 | In the end every address returned is its token as a string of its own |
| Strtok.Tokenizer.StrTok | lib-clib/src/strtok.cpp:58-101 | The scanning loops, the static cursor and the null cases do what one call is to do |
| Strtok.Tokenizer.Span | lib-clib/src/strtok.cpp:69-73 | The first scan stops at the first character that is no delimiter |
| Strtok.Tokenizer.Scan | lib-clib/src/strtok.cpp:85-100 | The second scan stops at the first delimiter or NUL |
| SlotInfo.Parse | lib-dmxnode/include/dmxslotinfo.h:147-210 | The parser accepts exactly the items of the grammar, with its laxities, and returns their values and where to go on, whatever the memory holds |
| SlotInfo.ParsedExactly | lib-dmxnode/include/dmxslotinfo.h:147-210 | An item is read if and only if digits, separator and end are as the loops want them, and its kind and category are the digits' values |
| SlotInfo.ParseKind | lib-dmxnode/include/dmxslotinfo.h:155-175 | The first loop reads at most two digits, up to a colon |
| SlotInfo.ParseCategory | lib-dmxnode/include/dmxslotinfo.h:177-197 | The second loop reads exactly four digits or fails |
| SlotInfo.DmxSlotInfo.constructor | lib-dmxnode/include/dmxslotinfo.h:39-51 | Every slot starts as primary and undefined |
| SlotInfo.DmxSlotInfo.FromString | lib-dmxnode/include/dmxslotinfo.h:69-93 | For any text the mask is 2^k - 1 for the k slots read, which are the first ones; the others keep their values |
| SlotInfo.DmxSlotInfo.ToString | lib-dmxnode/include/dmxslotinfo.h:95-138 | The text goes into the buffer if and only if the mask is 0 or 8 characters for every slot selected, of which there is one, are at most 7 for every slot; the buffer then holds the listing of the slots the mask selects, the last character a NUL |
| SlotInfo.FirstSlotsFit | lib-dmxnode/include/dmxslotinfo.h:95-138 | The text of the first k slots fits if and only if 8 * k is at most 7 for every slot; that of all of them never does |
| SlotInfo.ListingParsed | lib-dmxnode/include/dmxslotinfo.h:95-210 | Reading a listing gives the slots it was made of |
| SlotInfo.ItemDigits | lib-dmxnode/include/dmxslotinfo.h:114-124 | An item is two digits, a colon and four digits, in upper case |
| SlotInfo.WrittenAt | lib-dmxnode/include/dmxslotinfo.h:110-134 | A listing has the slots' items in order, a comma behind each and a NUL behind the last |
| SlotInfo.SelectedByOnes | lib-dmxnode/include/dmxslotinfo.h:112-131 | A mask of k ones selects the first k slots |
| SlotInfo.SelectedExactly | lib-dmxnode/include/dmxslotinfo.h:110-131 | Slot i is selected exactly if bit i of the mask is set, and its place is the number of lower bits that are |
| SlotInfo.RoundTrip | lib-dmxnode/include/dmxslotinfo.h:69-138 | Writing and reading into a fresh object restores mask and slots if and only if the mask is 2^k - 1; any other mask's slots come back moved to the front |
| SlotInfo.Restore | lib-dmxnode/include/dmxslotinfo.h:69-138 | The two routines one after the other: if the text fits its buffer, a fresh object has the selected slots at the front, in order, and the mask comes back if and only if it was that of the first k slots |
| Ema.StepInBand | lib-device/include/ema.h:56-61 | For inputs in [lo, hi] with hi * 2^K below 2^16 a pass overflows nowhere, puts out the true quotient rounded, in [lo, hi], and keeps the state in its band |
| Ema.RunInBand | lib-device/include/ema.h:45-61 | Every run of any length is, pass by pass, the run on unbounded integers: after each pass the state is in the band and the output in [lo, hi] |
| Ema.StartInBand | lib-device/include/ema.h:45-54 | Initial values and resets start in the band |
| Ema.StepSettles | lib-device/include/ema.h:56-61 | Under a constant input the state's distance strictly decreases until the output is the input, and exactly in those states the state stays |
| Ema.Settles | lib-device/include/ema.h:56-61 | After at most as many passes as the distance the output is the input for ever |
| Ema.KeepsValue | lib-device/include/ema.h:45-68 | A filter started at a value puts it out if and only if the value times the weight fits in 16 bits |
| Ema.Filter.constructor | lib-device/include/ema.h:45 | The initial state |
| Ema.Filter.Reset | lib-device/include/ema.h:54 | The state after a reset |
| Ema.Filter.Filter | lib-device/include/ema.h:56-61 | The method is the pass the theorems are about |
| Dwt.StepExact | lib-gd32/src/gd32_timers.cpp:142-157 | A call keeps the variables exact if and only if the cycles since the last one and the remainder kept fit in 32 bits together |
| Dwt.NoDrift | lib-gd32/src/gd32_timers.cpp:142-157 | For calls less than 2^32 - k cycles apart Micros returns the floor of the true time by k, modulo 2^32, for ever |
| Dwt.Clock.Micros | lib-gd32/src/gd32_timers.cpp:142-157 | The method is the step the theorems are about |
| Dwt.DelayUs | lib-gd32/src/gd32_timers.cpp:111-140 | The wait ends at the reading its specification says, or is still on after all of them; if the cycles fit 32 bits, they have passed between the first reading and the last, whatever times in order the readings were made at |
| Dwt.NeverEarly | lib-gd32/src/gd32_timers.cpp:120-139 | However the counter is read and however often it wraps, the wait is never over before the cycles asked for have passed |
| Dwt.InTime | lib-gd32/src/gd32_timers.cpp:120-139 | A wait below 2^32 cycles is over at the latest at the first new reading at which they have passed, and one more if the counter wrapped |
| Ptp.Time.Normalize | lib-gd32/include/gd32_ptp.h:70-81 | The value is kept and the normal form reached, with C's truncating division |
| Ptp.Time.Sub | lib-gd32/include/gd32_ptp.h:83-88 | The difference is exact and normal, even if the target is one of the operands |
| Ptp.NormalUnique | lib-gd32/include/gd32_ptp.h:70-81 | Each value has one normal form, the truncated quotient and remainder |
| Ptp.NormalOpposite | lib-gd32/include/gd32_ptp.h:83-88 | Normal forms of opposite values are opposite field by field, so subtraction is antisymmetric |
| Ptp.NanosecondBack | lib-gd32/include/gd32_ptp.h:58-68 | To subseconds and back keeps nanoseconds modulo two seconds and loses one exactly if the subseconds are not whole; within 1 of the original if and only if below two seconds |
| Ptp.SubsecondBack | lib-gd32/include/gd32_ptp.h:58-68 | To nanoseconds and back loses exactly the nanosecond's fraction rounded up, at most 3 |

## Left out

- Heap.Allocator.Free: does not model freeing a pointer twice or one that was not handed out; the source has no defined answer.
- Heap.Allocator.Malloc: requests whose rounding wraps around 32 bits are excluded by `Representable`; the `DEBUG_HEAP` counters and output are not modelled.
- Fmc.Controller.Erase: offsets and lengths that are not whole sectors are excluded, since its callers round to whole sectors; `EraseUneven` says that such an erase does not end, but not what it leaves of the flash.
- Fmc.Controller.Write: what the hardware does with a word at an address that is no multiple of four, and with the program- and page-erase-enable bits the driver leaves set when an operation is abandoned or changes banks, is not modelled.
- ConfigStore.Store.Update: fields are byte ranges of the image; the structure's layout and the global UTC offset set at start-up are not modelled.
- ConfigStore.Store.RunTimer: the software timer is a handle and a callback; its intervals are recorded but time itself is not modelled.
- FlashInstall.Installer.Erase: the branch for an erase error is absent, because the driver never reports one; progress display and watchdog are left out. What the flash holds while a bank is still at a command is not stated.
- FlashInstall.Installer.WriteChunk: what it leaves when another client has left a bank at a command, or the driver at an erase, is stated for the driver alone (`WriteExact`, `WriteWhileErasing`), not for a session. Where the configuration store is kept in the same flash its timer is such a client.
- FlashInstall.Installer.WriteFirmware: a size that wraps when rounded or when added to the image offset is excluded, and so is an empty image.
- ConfigStore.Store.Flash: the invariant assumes that the store's region does not reach the end of the first bank, and that the driver is the store's between two polls; `CommitExact` says what a commit leaves where it is not, unless the driver is left at another erase, or write, when the machine is to poll its own: then that one is finished instead.
- Printf.Vprintf: widths, precisions and totals are unbounded integers; the source's overflow of `int` there is undefined. Floating-point conversions are not part of this model.
- Uuid.UuidUnparse: the default-case form `uuid_unparse` is one of the two modelled forms, chosen when the library is built.
- PollReply.Node.Run: the rest of the main loop, what a reply contains, and which ports are disabled or outside the poll's address range (for those the call sends nothing) are not modelled.
- Strtok.Tokenizer.StrTok: the delimiters are a value, so a delimiter string inside the memory being cut is not modelled.
- SlotInfo.DmxSlotInfo.ToString: writing stops at the first slot that does not fit; what the source overwrites behind the buffer, or in front of it, is not modelled.
- SlotInfo.DmxSlotInfo.FromString: more than 32 slots are excluded, because shifting a 32-bit word further is undefined; or-ing in a bit that is clear is written as an addition.
- Dwt.DelayUs: the endless loop is modelled on every finite sequence of readings; a product of microseconds and ticks beyond 32 bits waits for its remainder, as in the source.
- Ptp.Time.Sub: sums of seconds that do not fit 32 bits are excluded, because signed overflow is undefined.
- The blocking flash driver of the F4 parts, register access, interrupt handlers, LED, display, RDM and DMX code, floating-point sensor conversions, packet layouts, and plain getters and setters are not modelled: they are hardware access or would only add easy members.
