# Verified models of sunxi-tools

sunxi-tools is a set of utilities for Allwinner SoCs. This project models the parts of it that
compute something delicate, in Dafny, and proves what they promise:

* **NAND images** (`nand-image-builder.c`): the BCH encoder is proved from the ground up. The
  tables are the powers of a primitive element, the generator is the product over the marked
  cyclotomic cosets and has only 0/1 coefficients, the byte and word table steps are the bitwise
  division register, and every encoded block is a codeword that vanishes at the first 2t powers,
  hence differs from every other in more than 2t bits. The program's own polynomial is proved
  primitive. On top of it, whole pages and images are readable: unscrambling gives the source
  back, and every step's parity protects it. Every byte of an image is stated by its offset, and the
  key stream by its recurrence.
* **SPI flash over FEL** (`fel-spiflash.c`, `fel-remotefunc-spi-data-transfer.c`): the FIFO loop
  is correct for every hardware interleaving, the batch interpreter runs the host's command
  language, and the host's writer and reader leave or return exactly the intended bytes on a model
  of the chip with a write-enable latch, busy phases, block erase and AND-programming. The batches are
  also given byte by byte.
* **SPL loading** (`fel.c`, `thunks/fel-to-spl-thunk.S`, `soc_info.c`): the image is scattered
  around BROM memory and assembled by the swap; whenever the thunk comes back all BROM buffers are
  restored, and it is stated exactly when it does not. The session succeeds exactly if the thunk came
  back and left eGON.FEL in the header. All shipped SoC descriptions satisfy the conditions.
* **Device-side thunks** (`fel_lib.c`, `thunks/memcpy.S`, `fel.c`): memory moves, word transfers
  and the remote call stub as register machines over memory with 32-bit wrap-around, and a model of
  the ARM instructions on which the uploaded words themselves are proved to do the same.
* **Script compiler** (`script_bin.c`, `script_fex.c`, `script.c`, `include/list.h`): round trips
  of the text form and the binary form with their exact limits, and the linked lists below them.
  A grammar of fex files gives every spelling its meaning, and the parser reads each file of the
  grammar as that; printed numbers, lines and the fields of a binary file are stated in plain numbers.
* **CRC-32** (`nand-part-main.c`): the table-driven loop is polynomial division.

## Layout

| files | contents |
|---|---|
| `BitVectors`, `Words`, `Memory` | exclusive-or, shifts and bit strings on numbers; words; byte memory |
| `Gf2Poly`, `GaloisField`, `Primitivity`, `RootPoly`, `Cosets`, `Codeword`, `BchDistance` | the mathematics of the BCH code |
| `TableSteps`, `Reduction`, `BchControl` | the encoder's tables and loops |
| `NandScrambler`, `NandPage`, `NandImage`, `NandLayout`, `NandSeeds` | scrambler, page layout, page and image writer; images byte by byte; seeds |
| `SpiChip`, `SpiTransfer`, `SpiBatch`, `FlashImage`, `SpiHost`, `SpiProtocol` | flash chip, FIFO loop, interpreter, host; the bytes between them |
| `SramSwap`, `SplThunk`, `SplLoader`, `SplSession`, `SplChecksum`, `SocTables` | SPL loading |
| `Memmove`, `WordTransfer`, `RemoteCall` | device-side thunks as loops, and the host around them |
| `Arm`, `MemcpyCode`, `TransferCode`, `StubCode` | ARM instructions; the uploaded words as programs |
| `Script`, `ScriptLayout`, `ScriptCompile`, `ScriptDecompile` | the binary script format |
| `ScriptFormat`, `ScriptReading` | the fields of a compiled file; what is read from any file |
| `FexLexer`, `FexWriter`, `FexParser`, `FexRoundTrip`, `ScriptRoundTrip` | the text format; both together |
| `FexNotation`, `FexGrammar` | how values are printed; the grammar of what is parsed |
| `ListRing`, `ScriptTree` | linked lists and the script tree on them |
| `Crc32` | CRC-32 |

## How the source is represented

* Unsigned C integers are natural numbers with their width written out; `%` with a power of two
  stands for truncation and for wrap-around. Exclusive-or and inclusive-or are defined bit by bit on numbers, and an or
  of values with no common bit is written as a sum where that is proved or evident (big-endian
  loads, bit reversal).
* `mod8_tab`, one flat array in C, is a two-dimensional array whose rows are its entries.
* The SPI controller is an object whose hardware steps happen in any number between two accesses,
  chosen freely; fairness is a bounded number of polls that may find it idle. It waits while its
  receive FIFO is full, so the overflow that depends on the CPU's timing does not occur.
* The flash chip has 2^24 bytes and must not be busy when an operation starts. Writing needs a
  chunk size above 256 + 64 bytes, as otherwise no command would ever be emitted; reading one above 8.
* The SPL is an arbitrary function on memory that keeps the backup buffers and the thunk's table.
  A function called remotely is an arbitrary function on the machine state that keeps the stub.
* Uploaded ARM code is placed in memory word by word and its operands are loaded back from there.
  The host's operations are proved with the loops the instructions form; `Arm` decodes and executes
  the instructions one at a time, and the theorems about the words in memory (`MemcpyCode.UploadedUpRuns`
  and its like) end in the memory those loops leave. The machine of `Arm` has the registers, the
  instruction forms and the N, Z and V flags this code uses; there are no caches, exceptions or Thumb state.
* A script tree is a value in the formats' modules; `ListRing` and `ScriptTree` are its linked form,
  and `ScriptTree.TreeOf` says which tree the lists stand for.
  Text is a sequence of 8-bit characters. Reading outside the file and failed assertions are the
  outcome `Fault`, which neither decompiler nor parser prevents by itself.

## Where the code departs from what it promises

* `build_gf_tables` only checks that 1 does not recur early. `GaloisField.EvenPolynomialPasses` shows that every polynomial
  without a constant term passes, and `GaloisField.OntoIffOdd` that, among those that pass, the powers
  run through all nonzero elements exactly when the constant term is one.
* `fel_memcpy_up` copies one byte too many when source and destination are mutually aligned, off a
  word boundary, and the size ends before the next one (`Memmove.MemmoveExact`, `Memmove.OverrunExample`).
* The host accepts SPL files whose stated length is below 20 although the length word is then not
  uploaded (`SplSession.ShortImageAccepted`). The device is bound to agree with the host if and only if the
  length is at least 20 (`SplSession.DeviceAgreesIff`); for a shorter file the thunk is lost exactly when the
  word that was in memory before cannot be walked (`SplSession.WriteAndExecuteSpl`).
* The limit check of an SPL comes after most of it was uploaded; BROM memory is untouched even then.
* `thunk_addr - spl_addr` wraps when the thunk lies below the SPL, so it sets no limit
  (`SplLoader.ThunkBelowSetsNoLimit`), as on the A523.
* The description for unknown SoCs states no SRAM size, so its limit is 0 and every SPL is refused,
  while its comment speaks of about 21 KiB (`SocTables.GenericRefusesEveryImage`).
* The fex parser accepts port bank O, which the binary decompiler refuses (`ScriptRoundTrip.BankODiffers`).
* A string that makes a fex line of exactly 255 characters is still parsed correctly: its line end
  is read as an empty line (`FexRoundTrip.LineStep`).
* The comparison of names looks at as many characters as the name has without its final digits, so any
  beginning of a listed name, the empty one included, makes a value hexadecimal (`FexNotation.HexaIff`).
* With scrambling, an erase block smaller than a page makes the seed index a division by zero, and
  `check_image_info` does not refuse it (`NandPage.NoSeedExample`). It happens exactly if the source has a
  byte other than 0xFF (`NandImage.CreateImage`).

## Model

| member | source | states |
|---|---|---|
| `Gf2Poly.CodewordIsMultiple` | nand-image-builder.c:169-183 | data followed by its bit-serial parity is the product of the generator with a quotient, for all data and generators |
| `Gf2Poly.ParityUnique` | nand-image-builder.c:169-183 | only that parity makes data a multiple of the generator |
| `Gf2Poly.RunConcat` | nand-image-builder.c:225-237 | dividing a concatenation is dividing its parts in turn |
| `Gf2Poly.RunLinear` | nand-image-builder.c:275-298 | the division register is linear in state and data |
| `GaloisField.PowerDistinct` | nand-image-builder.c:362-385 | if 1 does not recur early, the powers of the element are pairwise different |
| `GaloisField.PowerOnto` | nand-image-builder.c:362-385 | a polynomial with constant term 1 that passes the check yields every nonzero element as a power |
| `GaloisField.PowerPeriod` | nand-image-builder.c:381-382 | powers repeat with period n |
| `GaloisField.EvenPolynomialPasses` | nand-image-builder.c:371-380 | a polynomial without constant term passes the check |
| `GaloisField.OntoIffOdd` | nand-image-builder.c:371-380 | among polynomials that pass, the powers cover all nonzero elements if and only if the constant term is 1 |
| `GaloisField.MulAssoc` | nand-image-builder.c:337-342 | carry-less multiplication modulo the polynomial is associative |
| `GaloisField.MulComm` | nand-image-builder.c:337-342 | and commutative |
| `GaloisField.MulDistrib` | nand-image-builder.c:337-342 | and distributes over exclusive-or |
| `GaloisField.NoZeroDivisors` | nand-image-builder.c:337-342 | a product is zero only if a factor is |
| `GaloisField.Frobenius` | nand-image-builder.c:344-347 | squaring is additive |
| `GaloisField.IdempotentIsBit` | nand-image-builder.c:523-526 | an element equal to its square is 0 or 1 |
| `Primitivity.PolynomialIsPrimitive` | nand-image-builder.c:67 | the polynomial 0x5803 the program passes describes a field: X has order 16383 |
| `Primitivity.RepMul` | nand-image-builder.c:337-342 | the product of machine words is the product of the field elements they stand for |
| `Primitivity.NoEarlier` | nand-image-builder.c:371-380 | no smaller power of X is one, so the program's table check passes |
| `RootPoly.ProductRoots` | nand-image-builder.c:502-516 | the product of the linear factors vanishes exactly at the listed roots |
| `RootPoly.ProductPermutes` | nand-image-builder.c:502-516 | the product does not depend on the order of the roots |
| `RootPoly.BinaryCoefficients` | nand-image-builder.c:517-529 | if the roots are closed under squaring, every coefficient of the product is 0 or 1 |
| `Cosets.MarkedDouble` | nand-image-builder.c:494-501 | the marked exponents are closed under doubling modulo n |
| `Cosets.MarkedConsecutive` | nand-image-builder.c:494-501 | all exponents from 1 to 2t are marked |
| `Cosets.MarkedCount` | nand-image-builder.c:494-501 | at most m*t exponents are marked |
| `Cosets.RootsClosed` | nand-image-builder.c:494-501 | squaring permutes the marked roots |
| `Cosets.GeneratorPolynomial` | nand-image-builder.c:475-537 | the generator has only 0/1 coefficients, degree at most m*t, and vanishes at the first 2t powers |
| `Codeword.HornerTimes` | nand-image-builder.c:475-537 | evaluating a product of bit polynomials is multiplying the values |
| `Codeword.GeneratorVanishes` | nand-image-builder.c:475-537 | the generator's bits, as a polynomial, vanish at the first 2t powers |
| `Codeword.CodewordVanishes` | nand-image-builder.c:239-308 | data followed by its parity vanishes at a^1..a^(2t), for all data |
| `BchDistance.PowSumsDiffer` | nand-image-builder.c:494-501 | at most d different elements cannot have d vanishing power sums |
| `BchDistance.MinimumWeight` | nand-image-builder.c:494-516 | the BCH bound: a nonzero word of length at most n that vanishes at a^1..a^(2t) has more than 2t ones |
| `BchDistance.MinimumDistance` | nand-image-builder.c:239-308 | different words of the code differ in more than 2t bits |
| `BchDistance.EncodedDistance` | nand-image-builder.c:239-308 | different blocks of one length, with their parity, differ in more than 2t bits |
| `BchDistance.UniqueCorrection` | nand-image-builder.c:239-308 | at most one word of the code is within t bits of a received word |
| `TableSteps.ByteStep` | nand-image-builder.c:177-184 | one table byte step equals eight steps of bitwise division |
| `TableSteps.EntriesOfWord` | nand-image-builder.c:275-292 | the exclusive-or of the four table entries of a word is the remainder of that word |
| `TableSteps.WordStep` | nand-image-builder.c:286-298 | one four-table word step equals thirty-two steps of bitwise division |
| `TableSteps.WordIsFourBytes` | nand-image-builder.c:275-298 | and equals four byte steps |
| `Reduction.ReduceStep` | nand-image-builder.c:406-416 | subtracting the generator under the top bit keeps the remainder and shrinks the data |
| `BchControl.Fls` | nand-image-builder.c:120-147 | the position of the highest set bit, 0 for 0 |
| `BchControl.Modulo` | nand-image-builder.c:310-321 | terminates with v mod n |
| `BchControl.BchControl.BuildGfTables` | nand-image-builder.c:362-385 | succeeds exactly for polynomials of degree m whose powers do not return to 1 early; then the tables are powers and logarithms |
| `BchControl.BchControl.ListPowers` | nand-image-builder.c:371-380 | the loop stops early if and only if 1 recurs; otherwise both tables are those of the powers |
| `BchControl.BchControl.GfMul` | nand-image-builder.c:337-342 | the table product is the carry-less product modulo the polynomial |
| `BchControl.BchControl.MarkRoots` | nand-image-builder.c:494-501 | marks exactly the cosets of 1, 3, .., 2t-1 |
| `BchControl.BchControl.MultiplyOut` | nand-image-builder.c:502-516 | multiplies all marked factors out in place |
| `BchControl.BchControl.MulInPlace` | nand-image-builder.c:507-514 | one linear factor multiplied in place |
| `BchControl.Pack` | nand-image-builder.c:517-529 | the packed words hold the coefficients, highest first, losing nothing |
| `BchControl.BchControl.ComputeGeneratorPolynomial` | nand-image-builder.c:475-537 | returns the words of the generator polynomial and its degree |
| `BchControl.BchControl.FillRow` | nand-image-builder.c:403-416 | one table row is the remainder of its byte |
| `BchControl.BchControl.BuildMod8Tables` | nand-image-builder.c:390-419 | all four tables hold the remainders |
| `BchControl.BchControl.EncodeByte` | nand-image-builder.c:177-184 | the loop body runs the division register over one byte |
| `BchControl.BchControl.EncodeUnaligned` | nand-image-builder.c:169-185 | runs the register over a byte string |
| `BchControl.BchControl.EncodeWord` | nand-image-builder.c:287-297 | runs it over one word |
| `BchControl.BchControl.EncodeAligned` | nand-image-builder.c:286-298 | runs it over all words |
| `BchControl.BchControl.LoadEcc8` | nand-image-builder.c:190-201 | unpacks parity bytes into register words |
| `BchControl.BchControl.StoreEcc8` | nand-image-builder.c:206-223 | packs register words into parity bytes |
| `BchControl.BchControl.EncodeBch` | nand-image-builder.c:239-308 | for every alignment split the register has run over the whole block |
| `BchControl.BchControl.Encode` | nand-image-builder.c:239-308 | parity of a concatenation from the parity of its first part; block and parity are a codeword vanishing at a^1..a^(2t) |
| `BchControl.InitBch` | nand-image-builder.c:586-675 | fails exactly for bad parameters or a polynomial that is not primitive; otherwise ready to encode |
| `NandScrambler.SwapBits` | nand-image-builder.c:677-690 | reverses the bits of every byte of a range in place |
| `NandScrambler.AllReversedTwice` | nand-image-builder.c:677-690 | bit reversal is an involution |
| `NandScrambler.LfsrStep` | nand-image-builder.c:692-700 | clocks the 15-bit register |
| `NandScrambler.ClockBits` | nand-image-builder.c:695-697 | on bits: shift down, the exclusive-or of the two lowest bits enters at bit 14 |
| `NandScrambler.ClockBijective` | nand-image-builder.c:692-700 | a clock is a permutation of the states |
| `NandScrambler.LfsrNonzero` | nand-image-builder.c:692-700 | a nonzero state stays nonzero for ever |
| `NandScrambler.LfsrInjective` | nand-image-builder.c:692-700 | different states never merge, so different seeds stay apart |
| `NandScrambler.ScrambleBytes` | nand-image-builder.c:745-752 | exclusive-or of a range with the key stream, in place |
| `NandScrambler.ScrambleTwice` | nand-image-builder.c:745-752 | scrambling is an involution |
| `NandScrambler.KeyIsStream` | nand-image-builder.c:745-752 | bit j of key byte i is bit 15 + 8i + j of the stream that begins with the seed's bits and continues with the exclusive-or of the bits 15 and 14 places back |
| `NandPage.CheckImageInfo` | nand-image-builder.c:970-1023 | accepts exactly the stated geometries |
| `NandPage.AreaInside` | nand-image-builder.c:803-851 | data, out-of-band and tail areas lie inside page and OOB, for every accepted geometry |
| `NandPage.AreasApart` | nand-image-builder.c:803-851 | no two areas share a byte, for every accepted geometry |
| `NandPage.NoSeedExample` | nand-image-builder.c:970-1023 | an accepted geometry whose seed index divides by zero |
| `NandPage.StepParity` | nand-image-builder.c:841-845 | reversing, encoding and reversing back leaves the data and yields parity that makes a codeword |
| `NandPage.BuildStep` | nand-image-builder.c:816-846 | a step in the buffer is the scrambled source, spare bytes and protecting parity |
| `NandImage.WriteSteps` | nand-image-builder.c:812-852 | all steps are stored in their areas, earlier ones and the tail kept |
| `NandImage.DataBack` | nand-image-builder.c:846-849 | unscrambling the stored data gives the padded source |
| `NandImage.WritePage` | nand-image-builder.c:755-863 | divides by zero exactly on a page with data, scrambling and an erase block below the page size; otherwise an empty page stays erased, every other page reads back as the source padded with 0xFF, with protecting parity, and no page is marked bad |
| `NandImage.WritePages` | nand-image-builder.c:905-911 | the page loop, with the exact condition of the division by zero |
| `NandImage.EngineExists` | nand-image-builder.c:872-876 | for every accepted strength the program's own call of `init_bch` succeeds |
| `NandImage.CreateImage` | nand-image-builder.c:865-914 | engine included: divides by zero if and only if scrambling is on, the erase block is smaller than a page and the source has a byte other than 0xFF; otherwise the image's pages, numbered from the programming offset, hold the whole source and no page is superfluous |
| `NandLayout.ParityLengths` | nand-image-builder.c:760-764 | the parity bytes of each of the nine strengths, in numbers |
| `NandLayout.AcceptedIff` | nand-image-builder.c:970-1023 | accepted exactly if sizes are set, the step is 512 or 1024 and the out-of-band area has 32 to 116 bytes, by strength, for every step |
| `NandLayout.Places` | nand-image-builder.c:803-823 | step j's data at j * step, its spare bytes and parity at page + j * (parity + 4), the rest behind the last |
| `NandLayout.PageSeed` | nand-image-builder.c:733-742 | page q * n + r uses the r-th seed, n being the pages of an erase block but at most 128 |
| `NandLayout.KeyTellsSeed` | nand-image-builder.c:745-752 | the first two key bytes determine the seed |
| `NandSeeds.SeedsDiffer` | nand-image-builder.c:702-719 | no seed stands twice in the table |
| `NandSeeds.SharedKey` | nand-image-builder.c:733-752 | two pages have the same key, or keys with the same first two bytes, exactly if they agree modulo the pages of an erase block (at most 128) |
| `NandLayout.MainByte` | nand-image-builder.c:816-849 | every byte of a page's main area: the source byte at that place under the key byte counted from the step's beginning, 0xFF on an empty page |
| `NandLayout.SpareBytes` | nand-image-builder.c:846-851 | every out-of-band byte of a step: 0xFF or parity under the key that goes on from the data |
| `NandLayout.TailByte` | nand-image-builder.c:802-809 | every byte behind them: 0xFF under the key from its start |
| `NandLayout.ImageByte` | nand-image-builder.c:865-914 | the same at offset n * (page + OOB) + c of the image |
| `NandLayout.ImageMarker` | nand-image-builder.c:854-857 | the two bad block marker bytes of every page of an image are 0xFF |
| `NandImage.StepsDiffer` | nand-image-builder.c:841-845 | different steps are stored as codewords that differ in more than twice the strength in bits |
| `SpiTransfer.DataTransfer` | fel-remotefunc-spi-data-transfer.c:44-132 | under every FIFO interleaving each byte is sent once in order, each reply stored once in order, and the loop ends |
| `SpiTransfer.Send` | fel-remotefunc-spi-data-transfer.c:111-114 | sends unsent bytes that no reply has overwritten, TX FIFO below 64 |
| `SpiTransfer.Receive` | fel-remotefunc-spi-data-transfer.c:107-110 | stores replies in order behind the send position |
| `SpiTransfer.ExchangeOnce` | fel-remotefunc-spi-data-transfer.c:103-132 | one round of the word loop makes progress in a measure that fair hardware cannot stall |
| `SpiBatch.BatchDataTransfer` | fel-remotefunc-spi-data-transfer.c:138-187 | performs the encoded commands in order, replies in place, memory behind the batch untouched |
| `SpiBatch.PollBusy` | fel-remotefunc-spi-data-transfer.c:159-182 | a status poll returns the busy bit |
| `SpiBatch.EncodeConcat` | fel-spiflash.c:449-493 | batches concatenate |
| `SpiBatch.RunConcat` | fel-remotefunc-spi-data-transfer.c:152-186 | and so do their effects |
| `FlashImage.EraseStep` | fel-spiflash.c:451-466 | erasing the next block extends the written image by erased bytes |
| `FlashImage.ProgramStep` | fel-spiflash.c:467-488 | programming inside one page on erased bytes extends the image by the data |
| `FlashImage.EraseRuns` | fel-spiflash.c:451-466 | write-enable, erase and wait have that effect on the chip |
| `FlashImage.ProgramRuns` | fel-spiflash.c:467-488 | write-enable, program and wait likewise |
| `SpiHost.PlanChunk` | fel-spiflash.c:451-488 | the commands of one chunk carry the plan from one prefix of the data to the next |
| `SpiHost.WriteHelper` | fel-spiflash.c:432-501 | flash holds the buffer, erased bytes to the block end, all else unchanged; no batch exceeds the chunk size |
| `SpiHost.WriteBlock` | fel-spiflash.c:523-547 | chooses block size and count so that the rest can follow |
| `SpiHost.SpiflashWrite` | fel-spiflash.c:503-551 | refuses unaligned offsets; otherwise the whole buffer is in flash, everything outside the rounded range and the SRAM unchanged |
| `SpiHost.ReadReplies` | fel-spiflash.c:401-414 | the replies to a read command are the flash contents |
| `SpiHost.SpiflashRead` | fel-spiflash.c:376-424 | returns the contents for every offset and length, the end marker being there at every execution |
| `SpiProtocol.EraseBatchBytes` | fel-spiflash.c:451-466 | the eleven bytes of a 4 KiB and of a 64 KiB erase, opcodes and address order included |
| `SpiProtocol.ProgramBatchBytes` | fel-spiflash.c:467-488 | the bytes of a page program of up to 256 bytes |
| `SpiProtocol.ReadCommandBytes` | fel-spiflash.c:401-407 | the six bytes of a read command |
| `SpiProtocol.ChipErases` | fel-spiflash.c:42-46 | on those bytes an idle, enabled chip erases the 4 KiB or 64 KiB block of the address |
| `SpiProtocol.ChipPrograms` | fel-spiflash.c:42-46 | on those bytes it programs the page |
| `SpiProtocol.ChipReads` | fel-spiflash.c:401-414 | and answers with its contents |
| `SpiProtocol.StatusBit` | fel-remotefunc-spi-data-transfer.c:159-182 | bit 0 of the second answer byte to opcode 5 is the busy bit |
| `SramSwap.PartnerInvolution` | thunks/fel-to-spl-thunk.S:45-60 | trading places is symmetric |
| `SramSwap.SwapAllAt` | thunks/fel-to-spl-thunk.S:45-60 | swapping all buffers moves every byte to its partner |
| `SramSwap.SwapRestores` | thunks/fel-to-spl-thunk.S:45-60 | if the backups are kept in between, a second swap restores all BROM buffers |
| `SramSwap.SwapTwice` | thunks/fel-to-spl-thunk.S:45-60 | swapping twice changes nothing |
| `SplThunk.SwapBuffer` | thunks/fel-to-spl-thunk.S:53-59 | the word loop exchanges two buffers |
| `SplThunk.SwapAllBuffers` | thunks/fel-to-spl-thunk.S:45-60 | the table walk exchanges all, the table itself intact |
| `SplThunk.VerifyChecksum` | thunks/fel-to-spl-thunk.S:82-94 | comes to a verdict exactly for walkable length words, counted down in 32 bits; accepts exactly a correct eGON sum |
| `SplThunk.RunThunk` | thunks/fel-to-spl-thunk.S:80-140 | comes back exactly if a cache is on or the length word is walkable; the effect of all three exits |
| `SplLoader.LimitMeans` | fel.c:821-854 | an image within the limit is clear of backups and thunk |
| `SplLoader.LimitIff` | fel.c:821-854 | the limit is exact: an image fits if and only if it stays inside the SRAM and ends before every backup and the thunk, as far as they lie above its address |
| `SplLoader.ThunkBelowSetsNoLimit` | fel.c:849-850 | for every SoC with its thunk below the SPL the wrapped distance sets no limit |
| `SplLoader.PlaceImage` | fel.c:821-858 | fails exactly above the limit; never writes a BROM buffer; a placed image is where the swap expects it, and nothing else has changed |
| `SplSession.CheckImage` | fel.c:775-789 | accepts exactly files with header, length and sum in order |
| `SplSession.AcceptedIsNotEmpty` | fel.c:778-789 | an accepted file cannot state length 0 |
| `SplSession.ShortImageAccepted` | fel.c:775-789 | a file that states length 16 is accepted |
| `SplSession.DeviceAgrees` | thunks/fel-to-spl-thunk.S:82-94 | the device's sum over the placed image agrees with the host's |
| `SplSession.ShortLosesLength` | fel.c:784-789 | whatever memory holds a shorter image, one that differs only in the length word cannot be walked |
| `SplSession.DeviceAgreesIff` | fel.c:784-789 | the device reaches the host's verdict in every memory that holds the image if and only if the image has at least 20 bytes |
| `SplSession.LengthLeft` | thunks/fel-to-spl-thunk.S:82-85 | the length word the thunk finds is the image's own, or the one that was in memory before |
| `SplSession.Contiguous` | fel.c:824-846 | after the first swap the image is contiguous at its address |
| `SplSession.TableUploaded` | fel.c:867-878 | the uploaded bytes are the table the thunk reads |
| `SplSession.SessionRestores` | thunks/fel-to-spl-thunk.S:134-140 | after any SPL that keeps the backups all BROM buffers are restored |
| `SplSession.WriteAndExecuteSpl` | fel.c:760-898 | for every file: succeeds exactly if the thunk was started, came back and left eGON.FEL in the header, so never with a cache on and always for an image of at least 20 bytes that fits and keeps its signature; lost exactly if a shorter image meets an unwalkable length word, every BROM byte then being in its backup; otherwise BROM buffers are as before; the SPL is entered with its whole image in place, or .BAD is noted |
| `SplChecksum.AcceptableMeans` | fel.c:775-789 | accepted exactly if the file has 32 bytes, says eGON.BT0, states a length of whole words inside the file, and the stated sum is that of the seed and all other words |
| `SplChecksum.ChecksumDetects` | fel.c:778-789 | no change of a single word goes unnoticed |
| `SocTables.ShippedWellFormed` | soc_info.c:37-191 | every shipped SoC description satisfies the scheme's conditions |
| `SocTables.ThunkBelowOnA523` | soc_info.c:618-624 | of the shipped SoCs exactly the A523 has its thunk below the SPL; only the SRAM size limits its image |
| `SocTables.LimitExamples` | soc_info.c:37-191 | the limits on the V831 and the A133 in numbers |
| `SocTables.GenericRefusesEveryImage` | soc_info.c:660-674 | for unknown SoCs the limit is 0 |
| `Memmove.UpHead` | thunks/memcpy.S:11-18 | the upward head copies the size, or one byte more if it never meets a word boundary |
| `Memmove.UpWords` | thunks/memcpy.S:19-30 | the upward word loop and tail finish the copy |
| `Memmove.DownHead` | thunks/memcpy.S:46-54 | the downward head, testing first, never copies too much |
| `Memmove.MemcpyUp` | fel_lib.c:420-461 | memory after the upward copy |
| `Memmove.MemcpyDown` | fel_lib.c:463-503 | memory after the downward copy |
| `Memmove.FelMemmove` | fel_lib.c:505-519 | for every overlap and alignment the destination receives the original source, all else but the scratch area unchanged, apart from the overrun byte |
| `Memmove.MemmoveExact` | thunks/memcpy.S:11-18 | the move is exact if and only if it does not overrun or the next bytes agree |
| `Memmove.OverrunExample` | thunks/memcpy.S:11-18 | a move of one byte that changes two |
| `WordTransfer.WordLoop` | fel_lib.c:306-311 | the device loop copies the counted words |
| `WordTransfer.ReadChunk` | fel_lib.c:290-330 | one chunk of words, truncated at 244 |
| `WordTransfer.ReadlN` | fel_lib.c:336-345 | exactly count consecutive words for every count; at most 0x400 bytes of scratch memory change |
| `WordTransfer.WriteChunk` | fel_lib.c:348-387 | one chunk of words written |
| `WordTransfer.WritelN` | fel_lib.c:393-403 | exactly the given words, consecutively; all else but scratch unchanged |
| `RemoteCall.Prepare` | fel.c:275-338 | the uploaded block holds stack pointer, arguments and code where the stub looks; nothing outside it changes |
| `RemoteCall.EnterStub` | fel.c:288-301 | the function is entered with r0-r3, stack words and an 8-byte aligned sp as section 5.5 of the AAPCS demands |
| `RemoteCall.Execute` | fel.c:344-355 | sp and lr are restored and the host reads the function's result |
| `Arm.Fields` | fel.c:288-305 | an instruction word put together from condition, opcode, registers and operand decodes into them |
| `Arm.BranchFields` | fel_lib.c:306-311 | a branch word decodes into its signed distance |
| `MemcpyCode.UpDecodes` | thunks/memcpy.S:4-30 | the 23 words uploaded for the upward copy are the instructions of its assembly text |
| `MemcpyCode.DownDecodes` | thunks/memcpy.S:39-66 | the 24 words uploaded for the downward copy likewise |
| `MemcpyCode.UpHeadRuns` | thunks/memcpy.S:11-18 | executing the words of the upward head, from every count, copies the size or the one byte more and returns |
| `MemcpyCode.UpRuns` | thunks/memcpy.S:4-34 | executed from its first word, the upward block comes to the return address with the copy done |
| `MemcpyCode.DownRuns` | thunks/memcpy.S:39-70 | the downward block likewise, with exactly the size |
| `MemcpyCode.UploadedUpRuns` | fel_lib.c:420-461 | the machine, started on the upload, returns with the memory `MemcpyUp` leaves |
| `MemcpyCode.UploadedDownRuns` | fel_lib.c:463-503 | the machine, started on the upload, returns with the memory `MemcpyDown` leaves |
| `TransferCode.TransferDecodes` | fel_lib.c:300-311 | the words of both transfer thunks are the instructions of their assembly text |
| `TransferCode.TransferRuns` | thunks/readl_writel.S:7-37 | executed from its first word, a transfer block moves its count of words, capped at 244, and returns |
| `TransferCode.UploadedReadRuns` | fel_lib.c:300-320 | the machine, started on the upload, returns with the range's words behind the code |
| `TransferCode.UploadedWriteRuns` | fel_lib.c:362-386 | the machine, started on the upload, returns with the uploaded words in the range |
| `StubCode.StubDecodes` | fel.c:288-305 | the stub's words are the instructions of its assembly text |
| `StubCode.StubEnters` | fel.c:288-301 | executed from its first word, the stub comes to the function's entry in a state the procedure call standard prescribes |
| `StubCode.StubLeaves` | fel.c:302-305 | executed from the return on, it restores sp and lr, stores the result and returns |
| `StubCode.StubRuns` | fel.c:288-305 | a whole call: whatever the function does short of changing the stub, when it returns the caller goes on with its stack pointer and the result in the block |
| `ScriptCompile.BinSize` | script_bin.c:45-93 | exactly the length of the file to be generated, a multiple of 4 |
| `ScriptCompile.WriteEntry` | script_bin.c:138-193 | one entry extends entry table and data area, all other areas intact |
| `ScriptCompile.WriteSection` | script_bin.c:129-202 | one section with all its entries |
| `ScriptCompile.GenerateBin` | script_bin.c:95-204 | a zeroed buffer becomes the image and the data cursor ends at its end |
| `ScriptCompile.Compile` | fexc.c:193-197 | size, zeroed buffer and generation together yield the image |
| `ScriptFormat.WordsTaken` | script_bin.c:40-84 | a string takes as few words as hold it, a number or empty entry one, a GPIO six |
| `ScriptFormat.PatternWord` | script_bin.c:146-187 | the pattern word of each kind of value, type codes in numbers |
| `ScriptFormat.HeaderFields` | script_bin.c:124-127 | number of sections, file size, version 1.2 |
| `ScriptFormat.SectionFields` | script_bin.c:129-199 | each section's record: name, number of entries, word offset of the first entry |
| `ScriptFormat.EntryFields` | script_bin.c:141-187 | each entry's record: name, word offset of its data, pattern word |
| `ScriptFormat.DataFields` | script_bin.c:148-184 | each entry's data: the word, the padded characters, the six words, or zero |
| `ScriptFormat.Example` | script_bin.c:45-204 | a script with the string abcd makes a file of 100 bytes |
| `ScriptDecompile.DecompileSection` | script_bin.c:209-321 | the loop decodes a section |
| `ScriptDecompile.DecompileBin` | script_bin.c:326-356 | the loop decodes a file, with every refusal |
| `ScriptDecompile.EntryAtBack` | script_bin.c:240-313 | every entry comes back from its place in the image, or is refused for its port |
| `ScriptDecompile.RoundTrip` | script_bin.c:95-356 | the image of a sound tree decodes to that tree if and only if it has at most 256 sections and known ports; otherwise it is refused |
| `ScriptReading.EntryOutcome` | script_bin.c:240-313 | for any file: exactly which entry a record yields, which is dropped, and which types are refused |
| `ScriptReading.SectionOutcome` | script_bin.c:213-321 | exactly which section a record yields; a range outside the file is refused |
| `ScriptReading.DecodesWhatItReads` | script_bin.c:326-356 | for any file: the decompiler returns a script, all entries kept, if and only if the file holds it |
| `ScriptReading.HeaderOutcome` | script_bin.c:333-344 | versions above 16 and more than 256 sections are refused |
| `FexWriter.SingleMode` | script_fex.c:43-82 | hexadecimal for names whose stem begins a listed name |
| `FexWriter.WriteEntry` | script_fex.c:100-148 | one entry's line |
| `FexWriter.GenerateFex` | script_fex.c:84-152 | the text of a script |
| `FexNotation.Characters` | script_fex.c:219-243 | the characters of names, paths, numbers and blanks by their codes |
| `FexNotation.DigitsAre` | script_fex.c:107-112 | printed numbers have the right value, no leading zero and lower-case digits |
| `FexNotation.SingleNotation` | script_fex.c:104-114 | for all names and words: begins with 0x if and only if the name asks for it, else decimal with a minus sign exactly from 2^31 on |
| `FexNotation.HexaIff` | script_fex.c:43-82 | a name asks for hexadecimal if and only if what precedes its final digits begins one of the thirteen listed names |
| `FexNotation.HexaExamples` | script_fex.c:68-75 | dram_tpr0, lcd_gamma_tbl_255, dram and 123 do |
| `FexNotation.DecimalExamples` | script_fex.c:68-75 | dram_clk and vol do not |
| `FexNotation.PinNotation` | script_fex.c:128-135 | the bank's letter and at least two digits, or power and the number |
| `FexNotation.SettingNotation` | script_fex.c:136-141 | default for -1, else the signed number in angle brackets |
| `FexNotation.LineNotation` | script_fex.c:100-147 | the line of each kind of entry, character by character |
| `FexNotation.SectionNotation` | script_fex.c:95-149 | the bracketed name, the lines, an empty line |
| `FexParser.SkipBlank` | script_fex.c:159-164 | the first character that is not blank |
| `FexParser.Rtrim` | script_fex.c:167-175 | the text without trailing blanks |
| `FexParser.Prepare` | script_fex.c:186-205 | what of a line buffer is looked at |
| `FexParser.ReadSettings` | script_fex.c:303-326 | the loop over GPIO settings |
| `FexParser.ReadPort` | script_fex.c:270-341 | a port value and every way it is refused |
| `FexParser.ReadLine` | script_fex.c:186-373 | one line of the buffer |
| `FexParser.ParseFex` | script_fex.c:179-379 | the whole text, read in chunks of at most 255 characters |
| `FexGrammar.CoreFound` | script_fex.c:186-205 | blanks around a line, one final semicolon and either line end do not matter |
| `FexGrammar.NumberScan` | script_fex.c:342-346 | signed numbers in bases 8, 10 and 16, either case, have their value |
| `FexGrammar.ValueParsed` | script_fex.c:254-362 | every spelling of a value is read as its meaning or refused for its size: quoted or unquoted strings, numbers, pins with up to four settings |
| `FexGrammar.LineParsed` | script_fex.c:185-373 | at any place of a file a line of the grammar has its effect and the rest is read on; comments and empty lines have none |
| `FexGrammar.FileParsed` | script_fex.c:179-379 | every file of the grammar is read as what it means, to the first line that is refused |
| `FexGrammar.RefusedLine` | script_fex.c:362-373 | one refused line refuses the file |
| `FexGrammar.HeadRefused` | script_fex.c:216-235 | a section line without its bracket, or with more than a path, is refused |
| `FexGrammar.KeyRefused` | script_fex.c:236-252 | a key without an equals sign is refused |
| `FexGrammar.Example` | script_fex.c:179-379 | a file with a comment, CRLF, blanks, upper-case digits and a semicolon |
| `FexRoundTrip.LineStep` | script_fex.c:186-207 | a printed line of up to 255 characters is parsed as one line |
| `FexRoundTrip.ValueBack` | script_fex.c:254-360 | every printed value is read as the value it was, negative decimals and hexadecimal included |
| `FexRoundTrip.RoundTrip` | script_fex.c:84-379 | parsing the printed text of any legal script returns the script |
| `ScriptRoundTrip.TextBinaryText` | script_bin.c:95-356 | a script that survives the text form survives the binary form, within that form's stated limits |
| `ScriptRoundTrip.TextIsInjective` | script_fex.c:84-152 | different legal scripts print differently |
| `ScriptRoundTrip.BankODiffers` | script_fex.c:273-275 | bank O is accepted as text and refused as binary |
| `ListRing.Hook.constructor` | include/list.h:31-34 | a new hook is an empty ring |
| `ListRing.Inject` | include/list.h:37-46 | inserting keeps the ring, with the hook at its place in the sequence |
| `ListRing.Append` | include/list.h:49 | appending |
| `ListRing.Insert` | include/list.h:48 | inserting at the front |
| `ListRing.Remove` | include/list.h:52-57 | removing keeps the ring of the others |
| `ListRing.First` | include/list.h:60-63 | the first hook, or none |
| `ListRing.Last` | include/list.h:66-69 | the last hook, or none |
| `ListRing.Next` | include/list.h:72-76 | the following hook, or none |
| `ListRing.Empty` | include/list.h:79-82 | emptiness |
| `ListRing.Traverse` | include/list.h:60-76 | walking visits the sequence in order, each hook once |
| `ListRing.Find` | script.c:93-111 | the first hook with the name, null exactly if there is none |
| `ScriptTree.Script.constructor` | script.c:29-35 | a new script stands for the empty tree |
| `ScriptTree.Script.FindSection` | script.c:93-111 | the first section with the name, null exactly if there is none |
| `ScriptTree.Script.FindEntry` | script.c:250-268 | the first entry of a section with the name |
| `ScriptTree.Script.ToTree` | script_bin.c:129-141 | walking the lists as the generators do gives exactly the tree they stand for |
| `ScriptTree.Script.SectionNew` | script.c:55-74 | the tree gets one more section at the end, its name cut to 31 characters |
| `ScriptTree.Script.EntryNew` | script.c:115-135 | one more entry with its value at the end of its section, the rest of the tree unchanged |
| `ScriptTree.Script.SectionDelete` | script.c:76-91 | any section's list is emptied and the section leaves the tree |
| `ScriptTree.Script.Delete` | script.c:37-51 | terminates with every list empty and the empty tree |
| `Crc32.TableStep` | nand-part-main.c:65-68 | a table step equals eight bit steps |
| `Crc32.SerialBits` | nand-part-main.c:53-60 | bit steps on the reflected register are clocks of the polynomial division register |
| `Crc32.TapsAre` | nand-part-main.c:57-58 | the constant is the CRC-32 polynomial with its bits reversed |
| `Crc32.CalcCrc32` | nand-part-main.c:43-71 | the result is the complement of the remainder of the message's bits, lowest bit first, as section 8 of RFC 1952 defines it |

## Left out

- BchControl.InitBch: allocation failure and the decoder-only tables (`build_deg2_base`) are not modelled; the polynomial must be 0 or have constant term 1, as `GaloisField.OntoIffOdd` explains. Of the default polynomials none is proved primitive; the program passes its own.
- NandPage.CheckImageInfo: sizes are not negative, and only ordinary images are covered; boot0 images with their random padding are not modelled.
- NandImage.CreateImage: a page that is not a whole number of ECC steps is excluded; `NandPage.AreaInside` and `NandPage.AreasApart` cover it.
- NandImage.WritePage: two spare bytes of the first step are hidden by the bad block marker and are not claimed to be readable; files and seeking are replaced by a page array.
- SpiHost.SpiflashWrite: the range must lie inside the 16 MiB that three address bytes reach.
- SpiHost.SpiflashRead: addresses beyond the chip wrap around, as they do on the chip.
- SplSession.WriteAndExecuteSpl: MMU, L2 cache, stack pointers and processor mode are not modelled.
- Memmove.FelMemmove: sizes from 2^31 on, which the machine's sign tests cannot handle, and areas that overlap the scratch area are excluded.
- WordTransfer.ReadlN: the target range must not overlap the scratch area; unaligned addresses are treated like aligned ones.
- ScriptReading.DecodesWhatItReads: files of 2^31 bytes and more, on which the source's int sizes overflow, are excluded.
- FexRoundTrip.RoundTrip: lines above 255 characters, which the parser splits, are excluded; so are settings below -1.
- FexGrammar.FileParsed: blanks and plus signs inside port values, which the C library's number scanner skips, are modelled by the parser but are not part of the grammar.
- The USB transport, device enumeration and the FEL protocol below reading, writing and executing memory.
- Pin, clock and controller set-up for SPI, the JEDEC identification, and U-Boot script handling.
- Command lines, file access, progress display and hex dumps, which would only add easy members.
- FIT images, `pio`, `phoenix_info`, `meminfo`, `bootinfo` and the interactive partition writer.
