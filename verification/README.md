# Verified models of Alinix code

This project models the algorithmic core of the repository in Dafny 4.11 and proves what that code
computes. Each part is a model of its own, in the form of its source: objects that the source updates
become classes, loops become loops with invariants, and pure computations become functions. Widgets,
memory allocation, the rest of the kernel, hardware and random numbers answer through parameters.

| files | source | main results |
|---|---|---|
| `Common.dfy` | | Types, constants and powers that several models use. |
| `Mines.dfy` | `apps/mines/mines.cpp` | A click opens exactly the blocks that are reachable through blank blocks, and the recursion ends, on a board of any size. The first click never loses. |
| `ForthCodec.dfy`, `ForthEncoder.dfy`, `ForthWords.dfy` | `tools/blocks_converter.py`, `tools/unpack.py`, `tools/cf2html.c` | Decoding gives back what the encoders packed. The exact texts for which it does, and for which the encoder never ends, are proved, and the encoder wastes no room in a word. |
| `RegionTree.dfy`, `DmaMapping.dfy` | `driverso/fpga/dfl-afu-dma-region.c` | The search agrees with a linear scan over separate regions in every shape of the tree. Pages and mappings are in balance over every run of calls. |
| `Alu.dfy`, `LimbChains.dfy`, `Decimal.dfy`, `RotateCarry.dfy` | `extra/ops_alu.h`, `extra/ops_misc.c` | Chains of additions and subtractions of any length are exact, in binary and in packed decimal. Rotations through carry are rotations of one longer number. |
| `RealModeMemory.dfy`, `StringMoves.dfy`, `StackWords.dfy`, `RealMode.dfy` | `extra/ops_string.c`, `extra/ops_stack.c`, `extra/ops_call.c` | Repeated string instructions are exact copies and searches, and the stack instruction pairs restore the machine. |
| `FpgaImage.dfy` | `driverso/fpga/fpga-mgr.c` | An image in fragments reaches the driver as the same bytes as the image in one buffer. |
| `EditorRows.dfy`, `Editor.dfy`, `EditorFiles.dfy` | `apps/editor/editor.c` | Deleting undoes typing exactly where stated, and opening undoes saving. Rows are rendered within their buffers. |
| `FeatureHeaders.dfy`, `FeatureParams.dfy`, `FeatureList.dfy`, `FeatureRun.dfy` | `driverso/fpga/dfl.c`, `driverso/fpga/dfl.h` | The list walk succeeds exactly for good lists, and then commits one device for every interface unit. Exactly where a total of parameters keeps wrapping, it never ends. |
| `CreditWriters.dfy` | `driverso/fpga/dfl-fme-mgr.c`, `driverso/fpga/altera-cvp.c` | No word is pushed without credit, the words are those of the image, once each and in order, and a device that answers in time gets all of them. |
| `PortSharing.dfy` | `driverso/fpga/dfl.h`, `driverso/fpga/dfl.c`, `driverso/fpga/dfl-afu-main.c` | Use counts, exclusive use and the count of released ports agree after every run of calls. |

Some properties that one might expect do not hold of the code. The model keeps the code as it is,
states the exact condition, and gives an input for which the property fails:

- The 32-bit SBB computes `src + CF` in 32 bits. A subtraction chain is exact if and only if no limb
  meets `src == 0xFFFFFFFF` with the carry set (`LimbChains.SubChain`, `LimbChains.LostBorrowExample`).
  SBB also sets OF wrongly exactly where the carry is set and `src` is the largest positive number, and
  AF by its own rule (`Alu.Sbb`, `Alu.OverflowSetWrongly`, `Alu.AdjustMissed`).
- The win test of the mines game counts an open mine as well. `Mines.Field.LaterClick` states when a
  click on a mine reads as a win, and `Mines.MineReadsAsWon` plays such a game.
- `word_to_long_array` loses a space at the end of a 28-bit chunk and does not end on a chunk of seven
  spaces before the last (`ForthWords.WordToLongArray`, `ForthWords.OneSpace`, `ForthWords.EightSpaces`).
  A chunk takes every character that its word could hold, except a space behind a full one
  (`ForthWords.FirstIsGreedy`, `ForthWords.SpaceLeftOut`).
  The comment of `packword` says that bits past 28 are ignored; the code raises an error unless they are
  zero (`ForthWords.Packword`, `ForthWords.EightLetters`).
- The search for a DMA region can miss one that covers the area when regions overlap
  (`RegionTree.SearchExactly`, `RegionTree.OverlapMissed`). It finds a region that does not contain the
  area when the area wraps around the address space (`RegionTree.FindsAtTop`, `RegionTree.WrappedFound`),
  and misses a region that reaches the top of it (`RegionTree.FindsContaining`, `RegionTree.TopMissed`).
  Such a region is refused next to any other (`RegionTree.InsertedApart`, `RegionTree.TopRefused`). Page counts are
  taken in an `int` when pinning and in a `long` when unpinning (`DmaMapping.Afu.MapRegion`,
  `DmaMapping.LongRegion`). Destroying all regions leaves a mapping at address zero in place
  (`DmaMapping.Afu.Destroy`, `DmaMapping.ZeroAddressStays`).
- The credit field of the reconfiguration engine has nine bits: with a multiple of 512 entries free it
  shows none, and the write times out (`PartialReconfiguration.FmeWrite`,
  `PartialReconfiguration.WrappedCredit`).
- A row that holds a newline character comes back as two when the file is saved and opened again
  (`EditorFiles.SavedAndOpened`, `EditorFiles.NewlineInRow`).
- Loading from fragments accepts an image that is shorter than its header says, and loading from one
  buffer does not (`FpgaImage.LoadBothWays`, `FpgaImage.ShortImage`).
- After joining two rows the editor's shift of the screen goes the wrong way: the cursor stays on the
  screen if and only if the first row is no longer than the screen is wide (`Editor.Editor.DelChar`,
  `Editor.JoinLeavesScreen`). The screen offset can become negative, and the cursor loop then reads in
  front of the row (`EditorRows.CursorColumn`, with the offset of `Editor.JoinLeavesScreen`).
- The total of a feature's parameters is an `int`. If no total on the walk reaches 2^31 the size is
  right. Otherwise the first header whose total does decides: as the last one it makes the size wrong;
  as any other it makes it right where the wrapped total lies outside the feature, and inside it the
  chains from there decide, one after the other (`FeatureParams.TotalsDecide`,
  `FeatureParams.RefusedDecide`). The walk can return too small a size (`FeatureParams.ShortTotal`), so
  that data is looked for behind the copy (`FeatureParams.DataBehind`), or never return
  (`FeatureParams.EndlessTotals`), and then the walk over the list does not either
  (`FeatureList.CaughtAtOnce`).
- A list whose first interface unit is not its first header builds that unit's device from the header at
  the start of the list (`FeatureList.PlacesRight`, `FeatureList.PlaceWrong`).
- A child that NEXT_AFU places beyond its region is accepted, because a 64-bit difference wraps
  (`FeatureList.ChildInside`, `FeatureList.ChildBeyond`).

The emulator's `RME_Int_GetPtr` tests for a missing block only where a macro is set, and the one
definition of that macro comes after the header that uses it. So the test is compiled in no file, and an
access to a missing block goes through a null pointer. `RealMode.Machine` has the test as a constant:
what is stated of mapped memory holds with it and without it, and the error for a missing block is the
one of the code only where the test is on.

`dafny verify dfyconfig.toml` checks the whole project.

## Model

| member | source | states |
|---|---|---|
| `Flood.FloodExact` | apps/mines/mines.cpp:145-176 | A set of open blocks that satisfies the contract of Open is exactly the old one and the blocks reachable from the clicked one through closed blank blocks. |
| `Flood.FloodComplete` | apps/mines/mines.cpp:145-176 | Every block on a path through closed blank blocks from the opened one is open afterwards. |
| `Flood.FloodAvoidsMines` | apps/mines/mines.cpp:151-167 | Opening a block without a mine opens no mine. |
| `Flood.FloodFromMine` | apps/mines/mines.cpp:151-152 | Opening a mine opens that block and nothing else. |
| `Flood.RingCount` | apps/mines/mines.cpp:92-116 | The eight tests around a block count the mines among its neighbours. |
| `Flood.NoneAround` | apps/mines/mines.cpp:155-156 | The count is zero exactly where no neighbour has a mine. |
| `Flood.PlacedExactly` | apps/mines/mines.cpp:182-195 | Placement adds as many mines as wanted, or as many as there are different allowed draws. |
| `Flood.PlacedEligible` | apps/mines/mines.cpp:188-193 | Every mine placed was drawn, is not the clicked block and is not beside it. |
| `Flood.ChoicesAreDrawn` | apps/mines/mines.cpp:188-193 | The allowed draws are those more than one column or row away from the clicked block. |
| `Flood.PlacedFirst` | apps/mines/mines.cpp:182-195 | The mines placed are all the allowed positions among the first draws. |
| `Flood.AvailableIsDistinct` | apps/mines/mines.cpp:189 | The draws that can still be used are the different allowed draws without a mine. |
| `Flood.FirstClickIsBlank` | apps/mines/mines.cpp:178-196 | After the first click the clicked block has no mine in it or beside it, and all mines are placed if and only if there are enough different allowed draws. |
| `Flood.WinTest` | apps/mines/mines.cpp:217-223 | The count of open blocks reaches the number of blocks without mines exactly when those are the open ones; on a mine, exactly when one block without a mine was left. |
| `Flood.OpenBlockTest` | apps/mines/mines.cpp:217-223 | As long as no mine is open, the count reaches the number of blocks without mines exactly when all of those are open. |
| `Flood.ClickOutcome` | apps/mines/mines.cpp:215-223 | One click keeps every open blank block surrounded by open blocks and opens exactly the reachable blocks; off a mine it opens no mine. |
| `Mines.Field.constructor` | apps/mines/mines.cpp:242-255 | One closed block without a mine at every position of the board. |
| `Mines.Field.GetBlock` | apps/mines/mines.cpp:73-79 | The block at a position of the board, and none outside it. |
| `Mines.Field.IsMine` | apps/mines/mines.cpp:65-71 | True exactly at the positions with a mine. |
| `Mines.Field.CountMinesAround` | apps/mines/mines.cpp:92-116 | The number of mines among the neighbours. |
| `Mines.Field.IsBlockAround` | apps/mines/mines.cpp:118-143 | True exactly for the neighbours on the board. |
| `Mines.Field.Open` | apps/mines/mines.cpp:145-176 | The recursion ends, changes nothing for an open or missing block, and otherwise opens a set that contains the block, only reachable blocks, and all neighbours of the blank ones it opened; the game is lost exactly on a mine. |
| `Mines.Field.OpenRing` | apps/mines/mines.cpp:157-166 | Opening the eight neighbours completes the set. |
| `Mines.Field.PlaceMine` | apps/mines/mines.cpp:185-194 | A draw becomes a mine if and only if it is allowed and has no mine. |
| `Mines.Field.HandleFirstClick` | apps/mines/mines.cpp:178-196 | The mines afterwards are those that the draws place, and the loop is done exactly when the wanted number is reached. |
| `Mines.Field.FirstClick` | apps/mines/mines.cpp:206-210 | The mines are those that the draws place. With enough draws the first click leaves the game running and opens exactly the blocks reachable from the clicked one, all its neighbours among them. |
| `Mines.Field.OpenClicked` | apps/mines/mines.cpp:215 | A click on a settled board opens exactly the blocks reachable from a closed block and nothing from an open one, keeps the board settled, and loses exactly on a closed mine. |
| `Mines.Field.LaterClick` | apps/mines/mines.cpp:211-224 | A later click keeps the invariants of play. After a closed block without a mine the game is won exactly when all such blocks are open; on a mine, exactly when one of them was left, and otherwise lost; on an open block nothing opens and the test is made again. |
| `Mines.Field.CheckWin` | apps/mines/mines.cpp:217-223 | The game is won exactly when as many blocks are open as there are blocks without mines. |
| `Mines.RowOfFour` | apps/mines/mines.cpp:145-176 | On a row of four blocks with a mine at the third, the first click opens exactly the first two. |
| `Mines.ClickInRow` | apps/mines/mines.cpp:178-210 | That position, reached by a first click with one draw. |
| `Mines.MineReadsAsWon` | apps/mines/mines.cpp:211-224 | From there a click on the mine ends the game as won. |
| `ForthCodec.RestShrinks` | tools/cf2html.c:13-30 | Every turn of the decoder leaves less of a non-zero word, so that decoding ends. |
| `ForthCodec.TakeLetter` | tools/cf2html.c:15-29 | One turn of the decoder takes the first character of the text off. |
| `ForthCodec.PrintText` | tools/cf2html.c:11-31 | The decoder ends on every 32-bit word and gives its text. |
| `ForthCodec.TakeNibble` | tools/unpack.py:23-36 | One turn of the other decoder, by nibbles, takes the same character off. |
| `ForthCodec.Unpack` | tools/blocks_converter.py:35-53 | The other decoder gives the text of the word without its tag. |
| `ForthEncoder.PackedFront` | tools/blocks_converter.py:103-107 | The code of a text is that of its first character followed by that of the rest. |
| `ForthEncoder.HoldsStep` | tools/blocks_converter.py:243-254 | Decoding one character of a word that holds a text leaves a word that holds the rest. |
| `ForthEncoder.DecodeHolds` | tools/blocks_converter.py:243-254 | A word decodes to the text that it holds, up to trailing spaces. |
| `ForthEncoder.HoldsDecode` | tools/blocks_converter.py:243-254 | Every 32-bit word holds the text that it decodes to, and that text does not end in a space. |
| `ForthEncoder.DecodeExactly` | tools/blocks_converter.py:243-254 | A word decodes to a text if and only if it holds it and the text does not end in a space. |
| `ForthEncoder.DecodeInjective` | tools/blocks_converter.py:243-254 | Different words decode to different texts. |
| `ForthEncoder.DecodersAgree` | tools/unpack.py:17-37 | Both decoders agree on every 32-bit word with its tag cleared, and on the whole word if and only if its tag is zero. |
| `ForthEncoder.Appended` | tools/blocks_converter.py:143-157 | Both ways to append a character, whole or shrunk, keep the word holding the text. |
| `ForthEncoder.Shrink` | tools/blocks_converter.py:149-168 | The shrinking loop succeeds if and only if all the bits that do not fit are zero, and then keeps the others. |
| `ForthEncoder.FitsExactly` | tools/blocks_converter.py:143-168 | A character fits, whole or shrunk, if and only if any payload at all holds it behind the others. |
| `ForthEncoder.FullHoldsSpace` | tools/blocks_converter.py:138-173 | Behind a full payload no other character than a space is held. |
| `ForthEncoder.PackLetter` | tools/blocks_converter.py:142-168 | A character is packed if and only if some payload of 28 bits holds it behind the characters packed before, and the payload then holds one character more. |
| `ForthWords.Take` | tools/blocks_converter.py:139-168 | How many characters of a text one payload takes: none if and only if the text is empty, no bit is free, or the first character does not fit. |
| `ForthWords.ChunksJoin` | tools/blocks_converter.py:138-173 | The chunks of a text, joined, are the text. |
| `ForthWords.ChunkAt` | tools/blocks_converter.py:138-173 | No chunk is empty, and a payload takes each of them whole. |
| `ForthWords.FirstIsGreedy` | tools/blocks_converter.py:139-168 | Some payload holds the first chunk and the next character if and only if that character is a space. |
| `ForthWords.ChunksGreedy` | tools/blocks_converter.py:138-173 | The same for every chunk. |
| `ForthWords.BlocksIsSeven` | tools/blocks_converter.py:169-173 | The chunks on which the encoder never ends are those of seven spaces. |
| `ForthWords.FinishPack` | tools/blocks_converter.py:176-179 | The finished word carries the tag and decodes to its chunk without trailing spaces. |
| `ForthWords.FillStep` | tools/blocks_converter.py:140-168 | One turn of the inner loop packs a character or finishes a word, and keeps the words equal to the chunks so far. |
| `ForthWords.FillWords` | tools/blocks_converter.py:139-168 | The inner loop ends with a full payload or at the end of the text. |
| `ForthWords.ReadBack` | tools/blocks_converter.py:138-174 | Reading the words gives the chunks back if and only if all are there and none ends in a space. |
| `ForthWords.WordToLongArray` | tools/blocks_converter.py:133-174 | Every word carries its chunk and the tag is on the first word only; no word could hold the next character as well, unless that is a space. The loop never ends if and only if a chunk before the last is one of seven spaces. The words decode to the text if and only if no chunk ends in a space; every text without spaces comes back. |
| `ForthWords.SpaceFree` | tools/blocks_converter.py:138-174 | A text without spaces, of any length, has no chunk that ends in a space, so it always comes back. |
| `ForthWords.EightSpaces` | tools/blocks_converter.py:138-173 | Eight spaces are a text on which the encoder never ends. |
| `ForthWords.OneSpace` | tools/blocks_converter.py:138-174 | A single space is a text that does not come back. |
| `ForthWords.PackSeven` | tools/blocks_converter.py:139-179 | The text "rtoean0" is packed into the one word 0x123456D0 with its tag. |
| `ForthWords.SpaceLeftOut` | tools/blocks_converter.py:138-173 | Seven letters and a space: the space is a chunk of its own although the first payload holds it. |
| `ForthWords.PackableExactly` | tools/blocks_converter.py:55-69 | The shifted code decodes to the text if and only if the text fits and does not end in a space. |
| `ForthWords.Packword` | tools/blocks_converter.py:55-69 | One word is returned if and only if the text does not end in a space and has at most 28 bits, or at most 32 with those past 28 zero; it decodes to the text. The shift is negative if and only if there are more than 32 bits. |
| `ForthWords.EightLetters` | tools/blocks_converter.py:55-69 | Eight letters of four bits whose last code is odd have 32 bits and are not packed. |
| `RegionTree.RegionFind` | driverso/fpga/dfl-afu-dma-region.c:243-274 | The loop finds what the descent through the tree finds. |
| `RegionTree.SearchSound` | driverso/fpga/dfl-afu-dma-region.c:257-261 | What is found is in the tree and covers the area. |
| `RegionTree.SearchComplete` | driverso/fpga/dfl-afu-dma-region.c:251-269 | In every shape of the tree the search succeeds where the last region that starts at or before the address covers the area. |
| `RegionTree.SearchMisses` | driverso/fpga/dfl-afu-dma-region.c:263-269 | Where that region does not cover the area, there is a shape of the tree in which nothing is found. |
| `RegionTree.SearchExactly` | driverso/fpga/dfl-afu-dma-region.c:243-274 | The search finds a covering region in every shape of the tree whenever there is one, if and only if the last region before the address covers the area or none does. |
| `RegionTree.SearchIsScan` | driverso/fpga/dfl-afu-dma-region.c:243-274 | On separate regions, in every shape of the tree, the search returns what a linear scan returns for every area below the top of the address space. For other areas it succeeds where the scan does, except where the area wraps beyond zero and a region that reaches the top starts before it. |
| `RegionTree.ApartLast` | driverso/fpga/dfl-afu-dma-region.c:123-131 | With the same exception, if one of several separate regions passes the test for an area, the last one before the area does. |
| `RegionTree.FindsContaining` | driverso/fpga/dfl-afu-dma-region.c:243-274 | On separate regions, for an area below the top, the search finds the region that contains it if and only if there is one that ends below the top as well. |
| `RegionTree.FindsAtTop` | driverso/fpga/dfl-afu-dma-region.c:243-274 | An area that reaches the top lies in no region but one that ends there; with the same exception, the search succeeds if and only if the last region before it ends, with its end wrapped, at or behind the wrapped end of the area. |
| `RegionTree.WrappedFound` | driverso/fpga/dfl-afu-dma-region.c:123-131 | A region that is found for an area that starts behind it and wraps. |
| `RegionTree.TopMissed` | driverso/fpga/dfl-afu-dma-region.c:123-131 | A region that reaches the top is not found for its own first page. |
| `RegionTree.TopRefused` | driverso/fpga/dfl-afu-dma-region.c:153-169 | A region that reaches the top is refused next to one far below it. |
| `RegionTree.OverlapMissed` | driverso/fpga/dfl-afu-dma-region.c:243-274 | A region added in the middle and then one around it: an area that only the second covers is not found. |
| `RegionTree.BuiltApart` | driverso/fpga/dfl-afu-dma-region.c:142-175 | However regions that do not overlap are added, and whatever order-keeping shapes the tree takes, it holds exactly those that end below the top, and one that does not if it was the first, in order. |
| `RegionTree.FindIsScan` | driverso/fpga/dfl-afu-dma-region.c:243-274 | In every tree reached by adding regions that do not overlap, with any order-keeping rebalancing after each, the search returns what a linear scan over the added regions returns, for every area below the top; for other areas it succeeds where the scan does, except where one wraps beyond zero and the first region added reaches the top and starts before it. |
| `RegionTree.SearchStart` | driverso/fpga/dfl-afu-dma-region.c:283-287 | By start address the search finds the region if and only if it ends below the top of the address space. |
| `RegionTree.InsertedOrder` | driverso/fpga/dfl-afu-dma-region.c:153-171 | A new region goes to its place in the order of addresses. |
| `RegionTree.InsertedRefused` | driverso/fpga/dfl-afu-dma-region.c:160-168 | A refused region lies in an old one or starts where an old one starts. |
| `RegionTree.InsertedBlocked` | driverso/fpga/dfl-afu-dma-region.c:153-169 | In every shape of the tree, the last region before the new one decides. |
| `RegionTree.InsertedExactly` | driverso/fpga/dfl-afu-dma-region.c:142-175 | On separate regions, any region is refused only if the test finds an old one to cover it or one starts where it starts, and always then unless it wraps beyond zero and an old one before it reaches the top. |
| `RegionTree.InsertedApart` | driverso/fpga/dfl-afu-dma-region.c:142-175 | A region apart from all others is accepted if and only if it ends below the top of the address space or the tree is empty, and the regions then stay apart. |
| `RegionTree.ErasedOrder` | driverso/fpga/dfl-afu-dma-region.c:184-194 | Removing a region leaves all others in order. |
| `DmaMapping.IntPagesExact` | driverso/fpga/dfl-afu-dma-region.c:36 | The count of pages in an int is right if and only if it is below 2^31. |
| `DmaMapping.CheckContinuousPages` | driverso/fpga/dfl-afu-dma-region.c:101-112 | True exactly for consecutive page frames. |
| `DmaMapping.Afu.PinPages` | driverso/fpga/dfl-afu-dma-region.c:33-71 | All pages are counted and pinned, or nothing has changed, on each of the failure exits. |
| `DmaMapping.Afu.UnpinPages` | driverso/fpga/dfl-afu-dma-region.c:81-92 | Gives the pages of the region back. |
| `DmaMapping.Afu.RegionAdd` | driverso/fpga/dfl-afu-dma-region.c:142-175 | The region is put in order, or the tree is unchanged, under any rebalancing that keeps the order. |
| `DmaMapping.Afu.MapPinned` | driverso/fpga/dfl-afu-dma-region.c:331-366 | After pinning: a new region with its mapping, or everything given back. |
| `DmaMapping.Afu.MapRegion` | driverso/fpga/dfl-afu-dma-region.c:300-369 | Success if and only if every step succeeds; it adds the pages counted in an int to account and pins. An error leaves the tree alone and has the code of the step that failed. Account, pins and mappings stay those of the regions if and only if pinning failed or the region has fewer than 2^31 pages. |
| `DmaMapping.Afu.Release` | driverso/fpga/dfl-afu-dma-region.c:395-401 | Taking a region out keeps the balance. |
| `DmaMapping.Afu.UnmapRegion` | driverso/fpga/dfl-afu-dma-region.c:379-404 | Success if and only if a region that is not in use starts at the address and ends below the top; exactly that region goes, and the balance is kept. |
| `DmaMapping.Afu.DestroyFirst` | driverso/fpga/dfl-afu-dma-region.c:208-225 | The first region goes; its mapping only where its address is not zero. |
| `DmaMapping.Afu.Destroy` | driverso/fpga/dfl-afu-dma-region.c:202-227 | No region, no pinned page and no locked page is left, and only the mapping of a region at address zero. |
| `DmaMapping.Afu.Run` | driverso/fpga/dfl-afu-dma-region.c:300-404 | Over every run of maps and unmaps with page counts below 2^31, account, pins and mappings are those of the regions. |
| `DmaMapping.LongRegion` | driverso/fpga/dfl-afu-dma-region.c:300-369 | A region of 2^32 + 1 pages is mapped with one page pinned, and the balance is lost. |
| `DmaMapping.ZeroAddressStays` | driverso/fpga/dfl-afu-dma-region.c:202-227 | A region mapped at address zero is still mapped after all regions are destroyed. |
| `Alu.SetCommonFlags` | extra/rme_internal.h:217-223 | Zero, sign and even parity of the low byte of the result; the other flags are kept. |
| `Alu.XorIsParity` | extra/rme_internal.h:217 | The exclusive or of the low bits tells whether the number of ones among them is odd. |
| `Alu.AddFlags` | extra/ops_alu.h:12-21 | The comparisons give carry, auxiliary carry and overflow of the exact sum, carry in included. |
| `Alu.Add` | extra/ops_alu.h:29-32 | Result and carry are the exact sum; auxiliary carry and overflow are those of the nibbles and of the signed sum. |
| `Alu.Adc` | extra/ops_alu.h:38-42 | The same with the carry in. |
| `Alu.SubBorrows` | extra/ops_alu.h:24-25 | The comparisons give the borrow, and the auxiliary flag by the rule of the code. |
| `Alu.SubFlags` | extra/ops_alu.h:23-27 | The flags of a difference, for the value that is taken away. |
| `Alu.Sub` | extra/ops_alu.h:55-60 | Result and borrow are the exact difference; auxiliary borrow and overflow are those of the nibbles and of the signed difference. |
| `Alu.Sbb` | extra/ops_alu.h:44-49 | The result is the difference modulo the width. CF is the borrow unless `src + CF` wraps in 32 bits, and OF is the signed overflow unless CF is set and `src` is the largest positive number. |
| `Alu.OverflowSetWrongly` | extra/ops_alu.h:44-49 | 0 - 127 - 1 in eight bits sets OF although -128 is in range. |
| `Alu.AdjustMissed` | extra/ops_alu.h:44-49 | 0 - 0 - 1 in eight bits leaves AF clear although the low nibble borrows. |
| `LimbChains.AddLimb` | extra/ops_alu.h:29-42 | One limb of a chain of additions, with its carries. |
| `LimbChains.AddChain` | extra/ops_alu.h:29-42 | ADD and ADC over any number of limbs, of 8, 16 or 32 bits, give the exact sum with CF as its last carry. |
| `LimbChains.SubLimb` | extra/ops_alu.h:44-60 | One limb of a chain of subtractions, with the borrow that the 32-bit sum can lose. |
| `LimbChains.SubChain` | extra/ops_alu.h:44-60 | SUB and SBB over any number of limbs give the exact difference with CF as its last borrow if and only if no limb loses a borrow; at 8 and 16 bits none does. |
| `LimbChains.LostBorrowExample` | extra/ops_alu.h:46 | Two 32-bit limbs for which a borrow is lost. |
| `Decimal.SumCorrected` | extra/ops_misc.c:116-136 | After ADD or ADC of two packed decimal bytes, the corrections give their decimal sum. |
| `Decimal.DifferenceCorrected` | extra/ops_misc.c:147-163 | After SUB or SBB of two packed decimal bytes, the corrections give their decimal difference, whatever the auxiliary flag misses. |
| `Decimal.DaaSteps` | extra/ops_misc.c:113-136 | The corrections of DAA, step by step, with all flags that they set. |
| `Decimal.Daa` | extra/ops_misc.c:111-139 | DAA gives two decimal digits and the decimal carry, for all packed decimal operands that led to AL and the flags; AF and OF are as the code sets or keeps them. |
| `Decimal.DasSteps` | extra/ops_misc.c:143-163 | The corrections of DAS, step by step, with all flags that they set. |
| `Decimal.Das` | extra/ops_misc.c:142-166 | DAS gives two decimal digits and the decimal borrow, for all packed decimal operands that led to AL and the flags; AF and OF are as the code sets or keeps them. |
| `Decimal.AddByte` | extra/ops_misc.c:111-139 | ADD or ADC, then DAA, adds one decimal byte exactly. |
| `Decimal.AddDecimal` | extra/ops_misc.c:111-139 | Over any number of bytes, ADD or ADC and DAA compute the decimal sum with CF as its carry. |
| `Decimal.SubByte` | extra/ops_misc.c:142-166 | SUB or SBB, then DAS, subtracts one decimal byte exactly. |
| `Decimal.SubDecimal` | extra/ops_misc.c:142-166 | Over any number of bytes, SUB or SBB and DAS compute the decimal difference with CF as its borrow. |
| `RotateCarry.RclTurn` | extra/ops_alu.h:140-144 | One turn of the loop moves the first of the bits CF:dest to the end. |
| `RotateCarry.RcrTurn` | extra/ops_alu.h:158-162 | One turn of the loop moves the last of the bits CF:dest to the front. |
| `RotateCarry.Rcl` | extra/ops_alu.h:135-149 | CF:dest is rotated left by (count & 31) mod (width + 1); OF and the other flags are as the code sets or keeps them. |
| `RotateCarry.Rcr` | extra/ops_alu.h:151-165 | CF:dest is rotated right by the same amount; OF comes from the operands. |
| `RotateCarry.RclTurns` | extra/ops_alu.h:140-144 | The loop rotates CF:dest left by as many bits as it has turns. |
| `RotateCarry.RcrTurns` | extra/ops_alu.h:158-162 | The loop rotates CF:dest right by as many bits as it has turns. |
| `RotateCarry.RclNumber` | extra/ops_alu.h:135-149 | In numbers: the top (count & 31) mod (width + 1) bits of CF:dest become the lowest ones. |
| `RotateCarry.RcrNumber` | extra/ops_alu.h:151-165 | In numbers: as many low bits become the top ones. |
| `RotateCarry.RclThenRcr` | extra/ops_alu.h:135-165 | RCL and then RCR by the same count restore dest and CF, at every width. |
| `RotateCarry.RclMeetsRcr` | extra/ops_alu.h:135-165 | RCL by n equals RCR by width + 1 - n for 0 < n <= width, unless one of the counts is 32, which rotates nothing. |
| `RealModeMemory.WalkIsMod` | extra/ops_string.c:63-68 | Stepping an offset n times, up or down, is one sum modulo 2^16. |
| `RealModeMemory.WalkDistinct` | extra/ops_string.c:63-68 | Up to 2^16 steps of one byte meet different offsets. |
| `RealModeMemory.StoreHere` | extra/rme_internal.h:298-325 | A word stored is the word read back, with its low byte first; no other byte changes. |
| `RealModeMemory.StoreElsewhere` | extra/rme_internal.h:298-325 | A word stored leaves words at other even addresses alone. |
| `StackWords.StackPlaces` | extra/rme_internal.h:356-367 | The word n below or above SP is at SS * 16 plus SP minus or plus 2 n modulo 2^16. |
| `StringMoves.MovedSplits` | extra/ops_string.c:53-73 | Moving bytes in two stretches is moving them in one. |
| `StringMoves.RepMovsSplits` | extra/ops_string.c:91-105 | REP MOVSB of a + b bytes is REP of a and then of b from where the first ended, in either direction. |
| `StringMoves.RepMovsCopies` | extra/ops_string.c:91-105 | Where no byte is read after it was overwritten, the destination holds the old source bytes and all other memory is unchanged, in either direction. |
| `StringMoves.ScannedAt` | extra/ops_string.c:267-271 | The k-th outcome of a scan is whether the k-th byte equals AL. |
| `StringMoves.ComparedAt` | extra/ops_string.c:207-213 | The k-th outcome of a comparison is whether the k-th bytes are equal. |
| `StringMoves.PlacesUp` | extra/ops_string.c:63-68 | With the direction flag clear, turn k reads and writes k bytes above the pointers, modulo 2^16. |
| `StringMoves.PlacesDown` | extra/ops_string.c:63-68 | With it set, k bytes below. |
| `RealMode.Machine.Read8` | extra/rme_internal.h:291-297 | Reads a byte of a mapped block; a missing block ends the access by the test, or through a null pointer without it. |
| `RealMode.Machine.Write8` | extra/rme_internal.h:312-318 | Writes a byte of a mapped block and nothing else; a missing block ends the access in the same way. |
| `RealMode.Machine.MoveTurn` | extra/ops_string.c:95-101 | One turn of MOVSB and of the pointers. |
| `RealMode.Machine.Movsb` | extra/ops_string.c:91-105 | MOVSB without a prefix moves one byte. |
| `RealMode.Machine.RepMovsb` | extra/ops_string.c:91-105 | REP MOVSB moves CX bytes, or ends at the first byte whose block is missing with CX counted down and the pointers not yet stored. |
| `RealMode.Machine.RepMovsbOf` | extra/ops_string.c:91-105 | Where all bytes are there, REP MOVSB of n bytes ends with CX zero and both pointers n steps on. |
| `RealMode.Machine.RepMovsbTwice` | extra/ops_string.c:91-105 | REP MOVSB of a bytes and then of b bytes leaves the machine as one of a + b bytes does, in either direction and for overlapping strings. |
| `RealMode.Machine.MoveUp` | extra/ops_string.c:91-105 | With the direction flag clear, CX ends at zero and SI and DI end CX higher modulo 2^16; where no byte is overwritten before it is read, the bytes from DI up are the old ones from SI up, and no other byte changes. |
| `RealMode.Machine.MoveDown` | extra/ops_string.c:91-105 | With it set, the same downwards. |
| `RealMode.Machine.ScanTurn` | extra/ops_string.c:264-271 | One turn of SCASB sets ZF to its outcome. |
| `RealMode.Machine.RepScasb` | extra/ops_string.c:259-275 | The scan stops at the first match or the first mismatch, as the prefix says, or after CX bytes; CX, DI and ZF tell where. A missing block ends it with DI unchanged. |
| `RealMode.Machine.CompareTurn` | extra/ops_string.c:203-213 | One turn of CMPSB sets ZF to its outcome. |
| `RealMode.Machine.RepCmpsb` | extra/ops_string.c:198-217 | The same for comparing two strings, with SI and DI. |
| `RealMode.Machine.ScanUp` | extra/ops_string.c:259-275 | With the direction flag clear, the scan goes up from DI and ends, with DI behind the byte, at the first match or mismatch that the prefix asks for, or after CX bytes. |
| `RealMode.Machine.ScanDown` | extra/ops_string.c:259-275 | With it set, the same downwards. |
| `RealMode.Machine.FindByte` | extra/ops_string.c:259-275 | REPNE SCASB upwards: ZF is set if and only if AL is among the CX bytes, and then DI and CX tell where it is first. |
| `RealMode.Machine.CompareUp` | extra/ops_string.c:198-217 | With the direction flag clear, the comparison goes up from SI and DI and ends at the first equal or different pair that the prefix asks for, or after CX pairs. |
| `RealMode.Machine.CompareDown` | extra/ops_string.c:198-217 | With it set, the same downwards. |
| `RealMode.Machine.Push` | extra/rme_internal.h:356-360 | A push stores below the words pushed before, with SP lowered first; a missing block ends it before memory changes. |
| `RealMode.Machine.Pop` | extra/rme_internal.h:361-367 | A pop takes the word at the top; a missing block ends it with SP unchanged. |
| `RealMode.Machine.Pusha` | extra/ops_stack.c:47-58 | PUSHA succeeds if and only if there is room and no operand prefix, and leaves the eight registers on the stack, SP with its old value. |
| `RealMode.Machine.Popa` | extra/ops_stack.c:60-69 | POPA takes the registers from the slots above SP and skips the one for SP; it succeeds if and only if the slots that it reads are mapped and there is no operand prefix. |
| `RealMode.Machine.PushaPopa` | extra/ops_stack.c:47-69 | PUSHA and then POPA restore all registers, for every even SP with room. |
| `StackWords.EvenIsWhole` | extra/ops_call.c:115-119 | Below an even BP no word is only half there. |
| `RealMode.Machine.LowerFrame` | extra/ops_call.c:115-118 | BP goes down one word and the word there is read, if it is mapped. |
| `StackWords.PushaHolds` | extra/ops_stack.c:47-69 | The eight slots above SP hold the pushed registers in reverse order. |
| `RealMode.Machine.CopyWord` | extra/ops_call.c:115-119 | One turn of the level loop copies one more frame pointer. |
| `RealMode.Machine.CopyNext` | extra/ops_call.c:115-119 | The same for the whole copy: it ends early only if one of the words read or written is not mapped. |
| `RealMode.Machine.CopyDisplay` | extra/ops_call.c:102-121 | The level loop pushes the old frame pointers, in order. |
| `RealMode.Machine.EnterLevels` | extra/ops_call.c:99-131 | The frame pointers are followed by the new one, if and only if all words read and written are mapped. |
| `RealMode.Machine.EnterStack` | extra/ops_call.c:96-131 | Everything that ENTER pushes, for every level: BP, the old frame pointers and the new one; success if and only if exactly the words that it reads and writes are mapped and there is no operand prefix above level one. |
| `RealMode.Machine.Enter` | extra/ops_call.c:83-141 | ENTER succeeds if and only if the words that it reads and writes are mapped and there is no operand prefix above level one, for every size and level; it pushes BP, the frame pointers and the new one, points BP at the first word pushed, and lowers SP by the size modulo 2^16. |
| `RealMode.Machine.Leave` | extra/ops_call.c:143-153 | LEAVE sets SP to BP and pops BP. |
| `RealMode.Machine.EnterLeave` | extra/ops_call.c:83-153 | ENTER with any size and any level, and then LEAVE, restore SP and BP wherever the words that the level pushes and reads are mapped, for every BP below which no word that is read is only half there. |
| `RealMode.PackRoundTrip` | extra/ops_call.c:179-215 | Packing FLAGS into a word and unpacking it gives every flag back. |
| `RealMode.PackMasks` | extra/rme.h:90-98 | In the packed word every flag is the bit with its mask. |
| `StackWords.InterruptHolds` | extra/ops_call.c:179-215 | The three slots above SP hold the return address and the flags. |
| `RealMode.Machine.ReadVector` | extra/ops_call.c:161-164 | Offset and segment of a vector, if both are mapped. |
| `RealMode.Machine.CallInterrupt` | extra/ops_call.c:155-189 | An interrupt is emulated if and only if its vector is mapped, not null and not high-level, and the stack has room: FLAGS, CS and the next address are pushed, the vector is loaded, and IF and TF are cleared. A null vector is an error, and a high-level vector changes nothing here. |
| `RealMode.Machine.Iret` | extra/ops_call.c:210-218 | IRET takes IP, CS and FLAGS from the stack if and only if all three are mapped. |
| `RealMode.Machine.IntIret` | extra/ops_call.c:155-218 | Wherever the interrupt is emulated, INT and then IRET succeed, restore CS, all flags and SP, and continue at the next instruction. |
| `FpgaImage.Skipped` | driverso/fpga/fpga-mgr.c:380-384 | Skipping bytes of a fragment list fails if and only if there are too few, and otherwise leaves the rest. |
| `FpgaImage.PayloadBytes` | driverso/fpga/fpga-mgr.c:380-396 | What a driver is to be given, byte by byte: from behind the header if it is skipped, as many bytes as the data size says, or all if it is zero. |
| `FpgaImage.Manager.WriteFragment` | driverso/fpga/fpga-mgr.c:387-396 | One fragment, or the part of it that is still wanted, goes to the driver. |
| `FpgaImage.Manager.WriteFragments` | driverso/fpga/fpga-mgr.c:386-399 | The bytes written are a prefix of what is left up to the data size, and all of it if and only if the driver takes every piece. |
| `FpgaImage.Manager.AskDriver` | driverso/fpga/fpga-mgr.c:76-83 | The sizes are those that the driver sets; without a parser they stay. |
| `FpgaImage.Manager.ParseHeaderMapped` | driverso/fpga/fpga-mgr.c:150-170 | Success if and only if the driver is content and header and data fit the image; an image that is too short is an invalid argument. |
| `FpgaImage.Manager.ParseHeaderSgFirst` | driverso/fpga/fpga-mgr.c:179-202 | Asks the driver with the first fragment if that is long enough, and otherwise asks for more. |
| `FpgaImage.Manager.ParseHeaderSg` | driverso/fpga/fpga-mgr.c:211-258 | Success if and only if there are strictly growing sizes, the first the one wanted, each within the image and with memory, to all but the last of which the driver answers that it wants the next, and with the last of which it is content; so the loop ends. |
| `FpgaImage.GatheredExactly` | driverso/fpga/fpga-mgr.c:219-246 | The loop as a recursion and the sizes as a sequence describe the same copies. |
| `FpgaImage.ReadExactly` | driverso/fpga/fpga-mgr.c:292-341 | How the header comes to be read, on each of the three paths. |
| `FpgaImage.PatientReads` | driverso/fpga/fpga-mgr.c:211-258 | A parser that asks for more until it has what it needs, and is content then, gets its header from every fragmentation of the image, if there is memory. |
| `FpgaImage.Manager.WriteInitBuf` | driverso/fpga/fpga-mgr.c:267-290 | Success if and only if the header lies in the buffer and the driver starts. |
| `FpgaImage.Manager.PrepareSg` | driverso/fpga/fpga-mgr.c:292-341 | Success if and only if the header is read, not at all, in the first fragment or in copies, lies in what was read and the driver is ready; the driver was then content with a first part of the image. |
| `FpgaImage.Manager.Complete` | driverso/fpga/fpga-mgr.c:58-74 | The last state is operating exactly on success. |
| `FpgaImage.Manager.WriteImage` | driverso/fpga/fpga-mgr.c:375-400 | Fails without writing if the header is to be skipped and is longer than the image; otherwise writes as above behind the header. |
| `FpgaImage.Manager.DriverWriteSg` | driverso/fpga/fpga-mgr.c:94-100 | A driver with its own fragment writer is given the whole list. |
| `FpgaImage.Manager.BufLoadSg` | driverso/fpga/fpga-mgr.c:360-411 | Without a fragment writer of the driver, on success the bytes written, joined, are the part of the image that header and data sizes name, cut at its end, and on failure a prefix of it; with one, the driver gets the whole list once the header is prepared. Success, and the operating state, if and only if the header is prepared, everything is taken and the completion succeeds. |
| `FpgaImage.Manager.BufLoadMapped` | driverso/fpga/fpga-mgr.c:413-447 | Success if and only if every step succeeds and header and data fit; the bytes written are the part of the image that the sizes name. |
| `FpgaImage.LoadBothWays` | driverso/fpga/fpga-mgr.c:360-447 | For every driver and every fragmentation, if both loads succeed with the same sizes they give the driver the same bytes. If the parser answers the same to the whole image as to the part it accepted, the sizes are the same, and where the first load succeeds the second does if and only if header and data fit the image and its one write is taken. An image that loads from a buffer loads from fragments if and only if its header can be read from them, and always with a patient parser and enough memory, where the driver takes all pieces. |
| `FpgaImage.ShortImage` | driverso/fpga/fpga-mgr.c:150-170 | An image of one byte whose header asks for two is loaded from fragments and refused from a buffer. |
| `FpgaImage.HeaderInTwoCopies` | driverso/fpga/fpga-mgr.c:211-258 | A driver that starts with 71 bytes and then wants 100 loads an image in fragments of 64 bytes. |
| `EditorRows.TabWidth` | apps/editor/editor.c:335-337 | A tab reaches the next column that is 7 modulo 8, with one to eight spaces. |
| `EditorRows.RenderedBound` | apps/editor/editor.c:334-341 | A rendered row has at most size + 7 * tabs characters. |
| `EditorRows.RenderedAt` | apps/editor/editor.c:334-341 | Every character but a tab is shown at its column, and a tab as spaces up to the next column that is 7 modulo 8. |
| `EditorRows.CountTabs` | apps/editor/editor.c:322-323 | Counts the tabs of a row. |
| `EditorRows.RenderTab` | apps/editor/editor.c:336-337 | The inner loop writes exactly the width of the tab. |
| `EditorRows.RenderBuffer` | apps/editor/editor.c:315-343 | The buffer has room for every tab at its widest and a NUL; the rendered row is written within it and the NUL behind it. |
| `EditorRows.UpdateRow` | apps/editor/editor.c:315-343 | The rendered row without its final NUL. |
| `EditorRows.CursorColumn` | apps/editor/editor.c:742-751 | The screen column is one more than the column of the cursor in the row as shown from `coloff` on; with `coloff` zero, one more than its render index. The loop stays inside the row unless the offset is negative and the cursor is not at the left edge. |
| `Editor.InsertDelete` | apps/editor/editor.c:420-460 | Deleting undoes inserting a character if and only if the position is within the row; otherwise the padding stays. |
| `Editor.WithCharAt` | apps/editor/editor.c:420-440 | The line after an insertion, character by character. |
| `Editor.SplitAt` | apps/editor/editor.c:498-508 | The lines after a split, line by line. |
| `Editor.JoinSplit` | apps/editor/editor.c:484-546 | Joining undoes splitting. |
| `Editor.Editor.InsertRow` | apps/editor/editor.c:351-369 | A row put in at its place, or nothing beyond the end. |
| `Editor.Editor.DelRow` | apps/editor/editor.c:380-390 | A row taken out, or nothing beyond the end. |
| `Editor.RowsToString` | apps/editor/editor.c:396-416 | The buffer is exactly large enough and holds every row with a newline, and a final NUL. |
| `EditorFiles.SavedAndOpened` | apps/editor/editor.c:577-581 | The lines read from the text of the file are its rows if and only if no row holds a newline. |
| `EditorFiles.OpenText` | apps/editor/editor.c:574-583 | Opening adds one row for every line, without its final newline or carriage return. |
| `EditorFiles.SaveAndOpen` | apps/editor/editor.c:396-416 | Saving and opening in a new editor gives the same rows if and only if no row holds a newline. |
| `EditorFiles.NewlineInRow` | apps/editor/editor.c:577-581 | A row of one newline does not come back. |
| `Editor.Editor.RowInsertChar` | apps/editor/editor.c:420-440 | One character more at its place, with spaces where the row was too short. |
| `Editor.Editor.RowAppendString` | apps/editor/editor.c:443-450 | The characters of the row and then those of the string. |
| `Editor.Editor.RowDelChar` | apps/editor/editor.c:453-459 | One character less; the rendering still has a final NUL until the next update. |
| `Editor.Editor.InsertChar` | apps/editor/editor.c:462-480 | Empty rows are added up to the cursor, the character goes in at the cursor, and the cursor moves one column on and stays on the screen. |
| `Editor.Editor.SplitRow` | apps/editor/editor.c:498-508 | The row is split at the column. |
| `Editor.Editor.InsertNewline` | apps/editor/editor.c:484-517 | Splits the row at the column clamped to its length, adds a row after the last one, or does nothing further down; the cursor goes to the start of the next row. |
| `Editor.Editor.JoinRow` | apps/editor/editor.c:529-532 | The row is appended to the one before it and goes. |
| `Editor.Editor.ShowJoint` | apps/editor/editor.c:533-542 | The cursor position is right as a sum, with the screen shifted exactly as the code does; it is on the screen if and only if the column is no larger than the screen. |
| `Editor.Editor.DeleteInRow` | apps/editor/editor.c:544-550 | The character before the cursor goes and the row is rendered again. |
| `Editor.Editor.DelChar` | apps/editor/editor.c:520-552 | All cases of a deletion, with text, position, and the exact condition for the cursor to stay on the screen. |
| `Editor.Editor.NewlineThenDelete` | apps/editor/editor.c:484-552 | In every state, a newline and a deletion give the text of the file back if and only if the cursor was not on the line after the last one; on a row, the position comes back with the column clamped. The screen offset is then exactly the one that the code computes, and a cursor on the screen stays there if and only if the column is no larger than the screen. |
| `Editor.JoinLeavesScreen` | apps/editor/editor.c:533-542 | Three characters on a screen of one column, a newline and a deletion leave the screen offset at -1 and the cursor at column four of the screen. |
| `Editor.Editor.InsertThenDelete` | apps/editor/editor.c:462-552 | In every state, a character and a deletion give the position back, and the text of the file if and only if the cursor was within a row; a cursor on the screen stays there. |
| `FeatureParams.WalkEnd` | driverso/fpga/dfl.c:1111-1122 | Where the chain of parameter headers ends, with totals that do not wrap: behind its start, if it ends. |
| `FeatureParams.WalkEndExactly` | driverso/fpga/dfl.c:1111-1124 | The walk ends at a place if and only if a chain of headers leads there: each behind the first 0x28 bytes and within the feature, where the one before says, and only the last marked as such. |
| `FeatureParams.WalkIsChained` | driverso/fpga/dfl.c:1102-1125 | A walk that ends has passed a well-formed block. |
| `FeatureParams.GetParamSize` | driverso/fpga/dfl.c:1102-1125 | The value of the turn that ends the loop, with a total that wraps at 32 bits, or no value if and only if no turn does. Whatever the totals, the copied block steps forward. If none reaches 2^31, there is a size if and only if the chain ends well, it is that of the chain, and the headers of the copy are those passed. |
| `FeatureParams.MetTwice` | driverso/fpga/dfl.c:1111-1122 | A total met twice means that the loop never ends. |
| `FeatureParams.SizeIs` | driverso/fpga/dfl.c:1111-1124 | The value returned is that of the first turn that ends the loop. |
| `FeatureParams.FitsAgrees` | driverso/fpga/dfl.c:1102-1125 | If every total on the chain is below 2^31, the loop ends with the size of the chain, or with an error if and only if the chain does not end well. |
| `FeatureParams.TotalsDecide` | driverso/fpga/dfl.c:1102-1125 | The result is right if every total is below 2^31. Otherwise the first header whose total is not decides: as the last one it makes the result wrong; as any other it makes it right if the wrapped total is outside the feature, and inside it if and only if the chain from there does not end at a total taken for a size, where that chain does not wrap in its turn. |
| `FeatureParams.RefusedDecide` | driverso/fpga/dfl.c:1111-1124 | From every total, wrapped or not, whether the loop ends with an error: by the end of its chain if that does not wrap, and otherwise by the sign of the wrapped total at a last header, or by the chain from there. |
| `FeatureParams.CopySteps` | driverso/fpga/dfl.c:1102-1125 | Whatever the totals, the headers of a copied block step forward, so that a search in it ends. |
| `FeatureParams.EndlessTotals` | driverso/fpga/dfl.c:1111-1122 | Register contents for which the totals alternate between 0 and -8 and the loop never ends. |
| `FeatureParams.ShortTotal` | driverso/fpga/dfl.c:1111-1122 | Register contents for which a chain of 2^29 + 1 words is taken for one of eight bytes. |
| `FeatureParams.FindParam` | driverso/fpga/dfl.c:965-983 | On every copied block the loop ends and finds the first header with the id, or no header has it. |
| `FeatureParams.DataInside` | driverso/fpga/dfl.c:993-1004 | The data of every header of a chain lies in the block. |
| `FeatureParams.FindData` | driverso/fpga/dfl.c:993-1004 | The data returned belongs to a header with the id, and lies in the block if that is a chain. |
| `FeatureParams.DataBehind` | driverso/fpga/dfl.c:993-1004 | Register contents for which the data returned lies behind the copied block. |
| `FeatureList.Builder.ReadParams` | driverso/fpga/dfl.c:1153-1162 | Parameters are read for version 1 headers that have them if and only if the walk over them ends with a size; the walk that never ends has a result of its own. |
| `FeatureList.Builder.CreateOwn` | driverso/fpga/dfl.c:1134-1206 | A feature with its own header is added if and only if its parameters are good, its size fits what is left, and memory and interrupts are there. It does not return if and only if the walk over the parameters does not end. |
| `FeatureList.Builder.CreateAfu` | driverso/fpga/dfl.c:1208-1217 | The user part of a port is added with the size in the port header, under the same conditions. |
| `FeatureList.Builder.ParseAfu` | driverso/fpga/dfl.c:1221-1238 | Refused without a device, added to a port, passed over for the management engine. |
| `FeatureList.Builder.Prepare` | driverso/fpga/dfl.c:1240-1264 | The region is claimed, or nothing has changed. |
| `FeatureList.Builder.CommitDevice` | driverso/fpga/dfl.c:761-885 | The device is committed with its features in order and the list of features is empty; on failure the device stays uncommitted and the features that were already taken off the list are gone. |
| `FeatureList.Builder.CreateDevice` | driverso/fpga/dfl.c:887-917 | A new device without features if and only if the id is known and the kernel creates it. |
| `FeatureList.Builder.BeginDevice` | driverso/fpga/dfl.c:1293-1316 | The device of an interface unit starts with its header and its child; it does not return if and only if the parameters of that header are walked for ever. |
| `FeatureList.Builder.ParseFiu` | driverso/fpga/dfl.c:1272-1317 | The device before is committed, and the region starts anew at this header with the same end. Without a device before, the region stays and the header at its start is read. |
| `FeatureList.Builder.ParseOther` | driverso/fpga/dfl.c:1337-1359 | What any other header adds, when it is refused, and when the walk is caught in its parameters. |
| `FeatureList.Builder.ParseNext` | driverso/fpga/dfl.c:1375-1382 | One turn of the walk succeeds if and only if the header is good after those before, and keeps the devices equal to the plan and the end of the region fixed; it does not return if and only if it is caught in the parameters of the header. |
| `FeatureList.Builder.ParseStep` | driverso/fpga/dfl.c:1374-1390 | One header and the step to the next one; a bad header makes the list bad, and a walk caught at it is caught in the list. |
| `FeatureList.Builder.ParseAll` | driverso/fpga/dfl.c:1374-1390 | The walk succeeds if and only if all its headers are good, and does not end if and only if it is caught in the parameters of a header reached after good ones. |
| `FeatureList.Builder.ParseList` | driverso/fpga/dfl.c:1361-1399 | For every list: success if and only if all its headers are good and the kernel takes the regions and devices; the devices committed are then those of the plan, each a management engine if and only if the id at its place is zero and a port if and only if it is one, and no unit has another id. The walk does not end if and only if it is caught in the parameters of a header reached after good ones. |
| `FeatureList.WalkExactly` | driverso/fpga/dfl.c:1374-1390 | The headers of a list are the only sequence in which each is where the one before says, up to the first that ends the list or points behind it. |
| `FeatureList.PlanKinds` | driverso/fpga/dfl.c:132-141 | Every planned device is of the kind that the id at its place says. |
| `FeatureList.KnownPlaces` | driverso/fpga/dfl.c:132-141 | A list with a unit of any other id, at its place, is refused. |
| `FeatureList.FiuExactly` | driverso/fpga/dfl.c:1272-1317 | A unit is good if and only if the kernel creates it, its own header is good, and its id is zero, or one with no child or a good one. |
| `FeatureList.OwnExactly` | driverso/fpga/dfl.c:1150-1206 | A header within its region is good if and only if its parameters are, it gets memory and interrupts, and it ends within the region, counting 4096 bytes where it gives no offset. |
| `FeatureList.AfuExactly` | driverso/fpga/dfl.c:1208-1217 | A child within its region is good if and only if it gets memory and ends within the region. |
| `FeatureRun.EnumerateTwo` | driverso/fpga/dfl.c:1361-1399 | From register contents: a management engine with a private feature and a port with a child and a version 1 feature give exactly these two devices, with ids, revisions, ranges and parameters. |
| `FeatureList.FirstBad` | driverso/fpga/dfl.c:1374-1390 | The first bad header decides whether the walk is caught in the list. |
| `FeatureList.FittingEnds` | driverso/fpga/dfl.c:1102-1125 | A list in which every total of parameters stays below 2^31 is walked to an end. |
| `FeatureList.FittingParams` | driverso/fpga/dfl.c:1102-1125 | There the parameters of a feature are accepted if and only if the chain in the registers ends well, and are that chain. |
| `FeatureList.CaughtAtOnce` | driverso/fpga/dfl.c:1361-1399 | Register contents for which the walk over a list of one header never ends. |
| `FeatureList.PlanSegment` | driverso/fpga/dfl.c:1272-1399 | An interface unit and the headers up to the next one give one device: its header, its child, and the features that follow, in order. The first unit is taken to be at the start of the list. |
| `FeatureList.OneDeviceEach` | driverso/fpga/dfl.c:1272-1399 | One device for every interface unit of the list, in order, the first one placed at the start of the list. |
| `FeatureList.PlacesRight` | driverso/fpga/dfl.c:1293-1301 | The devices are at their interface units if and only if the first unit is the first header of the list. |
| `FeatureList.PlaceWrong` | driverso/fpga/dfl.c:1293-1301 | An unsupported header before a port: the device is built as a management engine at the start of the list. |
| `FeatureList.FeaturesInside` | driverso/fpga/dfl.c:1165-1166 | Every version 0 feature that the walk reaches starts at its place and ends before the end of the list. |
| `FeatureList.ListInside` | driverso/fpga/dfl.c:1165-1166 | In a list, every such place is at or after its start, so that the feature lies inside it. |
| `FeatureList.ChildInside` | driverso/fpga/dfl.c:1165-1166 | An accepted child of a port lies inside its region if and only if its offset does. |
| `FeatureHeaders.FieldRanges` | driverso/fpga/dfl.h:71-177 | The ranges of the offsets and sizes read from the registers. |
| `FeatureHeaders.DfhRead` | driverso/fpga/dfl.h:71-78 | A header put together from its fields is read back, whatever the unused bits hold. |
| `FeatureHeaders.CsrRead` | driverso/fpga/dfl.h:96-105 | The same for the register block of a version 1 feature. |
| `FeatureHeaders.ParamRead` | driverso/fpga/dfl.h:108-111 | The same for a parameter header. |
| `FeatureHeaders.ChildRead` | driverso/fpga/dfl.h:119-177 | The same for the offset and the size of a child. |
| `FeatureList.ChildBeyond` | driverso/fpga/dfl.c:1165-1166 | In every register space, a child whose offset lies beyond its region is accepted all the same. |
| `ImageWords.WordsAppend` | driverso/fpga/altera-cvp.c:445-447 | The words of an image can be split at any multiple of four bytes. |
| `ImageWords.WordBytes` | driverso/fpga/altera-cvp.c:254-269 | There are as many words as four-byte groups, and each is made of its bytes, the lowest first, with zeros behind the end. |
| `ImageWords.MaskedTail` | driverso/fpga/altera-cvp.c:264-269 | Masking the last word leaves only the bytes of the image. |
| `PartialReconfiguration.Engine.Push` | driverso/fpga/dfl-fme-mgr.c:207-212 | A push takes one free entry, and it is only allowed with more than one. |
| `PartialReconfiguration.Engine.ReadCredit` | driverso/fpga/dfl-fme-mgr.c:187-188 | A read returns the free entries modulo 512, so all of them if they are fewer. |
| `PartialReconfiguration.WaitForCredit` | driverso/fpga/dfl-fme-mgr.c:191-200 | The polling loop ends as soon as it sees more than one credit, and fails if and only if it sees none such in all the polls left; its count never exceeds the free entries. |
| `PartialReconfiguration.WriteWords` | driverso/fpga/dfl-fme-mgr.c:190-214 | The words written are the first words of the image; the loop gives up only with an engine that is too slow and shows too few entries. |
| `PartialReconfiguration.FmeWrite` | driverso/fpga/dfl-fme-mgr.c:164-217 | The words pushed are the first words of the image, in order. An engine that shows more than one entry within the polls allowed for each word, together within the limit, or more entries at the start than there are words, takes all of them: the result is 0, or an invalid argument after the whole words of a size that is not a multiple of four. An engine that never shows more than one entry within the limit makes the write time out. |
| `PartialReconfiguration.OneWordAtOnce` | driverso/fpga/dfl-fme-mgr.c:187-214 | With 200 entries free a word is taken at once. |
| `PartialReconfiguration.WrappedCredit` | driverso/fpga/dfl-fme-mgr.c:187-200 | With 512 entries free the same write times out. |
| `CvpWriter.TestIsRight` | driverso/fpga/altera-cvp.c:235-236 | Comparing eight bits tells whether a packet is granted, as long as the grants are at most 255 ahead. |
| `CvpWriter.TestExactly` | driverso/fpga/altera-cvp.c:235-236 | In general it tells whether the distance is not a multiple of 256. |
| `CvpWriter.Device.WaitForCredit` | driverso/fpga/altera-cvp.c:218-252 | The loop ends; success means that a packet is granted. Where no access fails it succeeds if and only if a packet was granted before or is within the 2001 polls. |
| `CvpWriter.Device.SendBlock` | driverso/fpga/altera-cvp.c:254-272 | The words of the block, the last one filled up with zeros, and only with a packet granted. |
| `CvpWriter.Device.WriteBlock` | driverso/fpga/altera-cvp.c:433-449 | One block and one packet, or an error and nothing. |
| `CvpWriter.Device.WriteAndCheck` | driverso/fpga/altera-cvp.c:431-464 | One packet, and the check behind it where a multiple of 4096 bytes is done. |
| `CvpWriter.Device.Write` | driverso/fpga/altera-cvp.c:420-471 | The words written are those of the image up to the end of the last packet, in order; every packet is a block, the last one maybe shorter, and on success they cover the image in as many packets as blocks, never more than granted. With the check on, no packet follows a check that fails at a multiple of 4096 bytes. It succeeds without throttling and checks, and wherever no access fails and a throttled device grants a packet in every stretch of 4001 accesses. |
| `CvpWriter.PacketsCount` | driverso/fpga/altera-cvp.c:433-449 | Packets of a block each that cover an image are as many as its blocks. |
| `CvpWriter.BlocksCover` | driverso/fpga/altera-cvp.c:433-449 | The number of packets is the length in blocks, rounded up. |
| `PortSharing.ReleasedUpdate` | driverso/fpga/dfl.c:1731-1732 | One port more or less released changes the count by one. |
| `PortSharing.ReleasedCount` | driverso/fpga/dfl.c:1853-1863 | There are as many different ids as released ports. |
| `PortSharing.RegisteredApart` | driverso/fpga/dfl.c:1859-1862 | No registered port has the id of a released one. |
| `PortSharing.Container.Open` | driverso/fpga/dfl-afu-main.c:595-615 | A port opens if and only if it is not held exclusively, and exclusively if and only if it is not held at all. |
| `PortSharing.Container.Close` | driverso/fpga/dfl-afu-main.c:617-640 | A closed file ends its use, and exclusive use with it. |
| `PortSharing.Container.FindPort` | driverso/fpga/dfl.c:229-245 | The first port with the id, which is read once; none if and only if no port is known to have it. |
| `PortSharing.Container.ReleasePort` | driverso/fpga/dfl.c:1706-1738 | Exactly one registered and unused port is released and held exclusively, or no use has changed. |
| `PortSharing.Container.AssignPort` | driverso/fpga/dfl.c:1752-1785 | Exactly one released port is registered again and unused, or no use has changed. |
| `PortSharing.Container.SwitchReleased` | driverso/fpga/dfl.c:1858-1863 | The access bits of exactly the released ports are set or cleared. |
| `PortSharing.Container.ConfigPortsVf` | driverso/fpga/dfl.c:1842-1867 | Success if and only if the number is that of the released ports; then exactly that many ports are switched, and no registered one. |
| `PortSharing.Container.ConfigPortsPf` | driverso/fpga/dfl.c:1816-1828 | Exactly the released ports are switched back. |
| `PortSharing.Container.Run` | driverso/fpga/dfl.h:333-360 | After every run of opens, closes, releases, assigns and switches: exclusive use means one use, released ports are held exclusively by no file, and their count is right. |

## Left out

- Emulator: instruction decoding, address and operand size prefixes, word and double-word string forms, STOS, LODS, CALL, RET, shifts, port I/O, debug output and what high-level callbacks do.
- Emulator memory: a map of the bytes that are there. Two blocks at the same host address, and words across the end of a block, are not modelled; the stack instructions are stated for even SP, and reads below BP where both bytes of a word are there or neither. The test for missing blocks is a constant of the machine; in the repository it is never switched on, and what a null pointer does after that is not modelled.
- RealMode.Machine.CallInterrupt: what a high-level callback changes is left out.
- RealMode.Machine.Push: stated for chains of fewer than 2^15 words, because the stack then meets itself.
- Mines: the list with computed index is a map from positions to blocks, the counting loop of the win test is the size of a set, and flags, labels and widgets are left out. Random draws are a parameter.
- Mines.Field.HandleFirstClick: the loop stops when the given draws run out and says so; the original would draw on.
- Codec: number words, the variable flag, block input and output and HTML. Characters outside the table, which raise an error before anything is packed, are outside the type. An endless loop of the encoder is a result of the model.
- ForthWords.WordToLongArray: stated for functions with four-bit tags, which are those with text parameters.
- RegionTree.RegionFind: the red-black tree is a value, so pointers, colours and the insertion loop on links are not modelled; rebalancing is any function that keeps the order.
- DmaMapping.Afu.MapRegion: calls are steps one after the other; the account is an unbounded number and does not wrap. Failures of the kernel are parameters. Nothing in the repository sets the in-use flag.
- DmaMapping.Afu.Destroy: stepping on from an erased node is modelled as taking the first node again.
- DmaMapping.Afu.DestroyFirst: the same step; the links of the erased node are not modelled.
- FpgaImage.Manager.ParseHeaderMapped: sizes are unbounded numbers, so the wrap of `header_size + data_size` in a `size_t` is not modelled.
- Editor: syntax colours, search, the screen except for the cursor column, the calls of the file system, and the row index that deletion changes. Rows too long for a 32-bit size, for which the editor exits, are not modelled.
- Editor.Editor.DelChar: after a join it keeps the column non-negative only where the screen offset was not negative, as the code does.
- FeatureList.Builder.ParseList: addresses are unbounded numbers, so a step past the top of the address space is not modelled.
- FeatureList.Builder.CreateOwn: memory and interrupt tables answer with one code for each header. The ranges of version 1 register blocks are as the registers say and are not tied to the list.
- FeatureParams.GetParamSize: a loop that never ends is a result of its own, found by a total met twice; the code keeps no totals.
- FeatureList.Builder.Prepare: the region stays requested when its mapping fails, until the device goes; the kernel's list of requests is not modelled.
- FeatureList.Builder.CommitDevice: how many features a failing commit has taken off the list is an answer of the kernel.
- PartialReconfiguration.FmeWrite: the engine is anything that frees entries between two accesses and takes one per word.
- CvpWriter.Device.Write: the device keeps its grants at most 255 packets ahead, which is what the eight-bit register can show.
- PortSharing.Container.Run: the locks make every operation one step; calls that close no open file are skipped.
- The rest of the repository: other drivers, the kernel, graphics, file systems, the chess headers and input devices.
