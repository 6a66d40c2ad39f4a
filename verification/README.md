# Verification of img3

A Dafny 4.11 model of the three parts of img3 that compute something hard, with proofs about them:
the LZSS codec and its archive format, the pairing and sorting of HTML tags, and the scan of an img3
image for its sections. `dafny verify dfyconfig.toml` checks the whole project.

**The LZSS codec.** The compressor keeps a 4096-byte ring with a mirror tail and 256 binary search
trees in three link arrays. `EncodeState` is a class over those arrays; `LzssForest` holds the
invariant of the trees and what each change of links does to it, node by node; `LzssInOrder` turns
that into statements about in-order sequences. `LzssStream` says what a compressed stream means
without rings: offsets in a growing output, with blanks and F unknown bytes in front of it.
`LzssMatching` relates the compressor's buffer and trees to stream offsets: the buffer is a decoder's
ring that is up to F bytes ahead. `LzssPacking` is the byte format in both directions.
`LzssFormat` says in numbers and letters what particular code means.
`LzssCompressor.Compress` and `LzssDecompressor.Decompress` are the two loops, proved against these,
so that whatever the decoder finds in its uninitialised cells, the text comes back. `LzssContainer`
adds the header, the checksum (`Adler32`) and the rounding, the last steps of `LzssCompress` being its
method `Finish`.

The steps of `InsertNode` and `DeleteNode` are divided over a few methods (`Search`, `Hang`, `TakeOver`;
`LastBefore`, `PullUp`, `Relink`), as are those of `Compress` (`Begin`, `Pick`, `Send`, `Advance` and what
they call). The do-while loop of `Compress` is a while loop whose first test holds. Masks and shifts
are written as the arithmetic they are: `& (N-1)` as `% N`, `x >> 1` as `x / 2`, and `|` of disjoint bits
as `+`, the disjointness being proved (`LzssCompressor.MaskFree`).

**HTML tags.** A tag is its name and its number. `HtmlTags` has what one closing tag is paired with,
`HtmlPairing` what holds in every state of every run, `HtmlMatching` exactly when the loop over
`CombineTags` ends with every tag paired, and that its pairs are then the only well-nested matching.
`HtmlEnding` says, of any document at all, exactly when the loop ends, which closing tags it then leaves
over, and that its pairs match all other tags; `HtmlStack` that they are those a stack of opening tags
makes. `HtmlNumbering` is what all lists of a parser keep, `HtmlParser.Parser` the class with the lists,
`HtmlSorting` the order of the pairs. For unrestricted documents the loop need not end:
`<ul><ul></ul></ul>` makes it spin (`HtmlMatching.NestedPairSpins`). It ends if and only if, for each
name with opening tags, all but the last of them are closed before the last, something closes the last,
and every closing tag in front of the first one of the name closes something (`HtmlEnding.EndsExactly`).

**img3 images.** `Img3Sections` has the headers, `Img3Scan` the scan, exactly when it ends and what it
lists, `Img3FileInterface` the classes with the list of sections. The scan need not end:
`Img3Counterexamples` has images on which it stays in place or goes round. It ends if and only if it may
read wherever it comes and comes to no offset twice (`Img3Scan.EndsExactly`); as long as no section it
comes to has an end past 32 bits, exactly when all of them can be read and have a length
(`Img3Scan.ForwardExactly`).

Where the code and its comments differ the model follows the code:

- The comments on the header's first two fields
  (`src/compression/include/IMG3_LzssInterface.h:37-38`) give their values the other way round; the code
  writes and reads 0x636F6D70 first.
- `IsFileCompressed` rejects only data in which both signatures are wrong.
- A checksum mismatch fails nothing.
- The limit given to `Compress` lies 384 bytes behind the end of the buffer. It is the size bound that
  keeps the output inside: the precondition of `LzssCompressor.Compress` asks for room up to the limit
  or for n + ceil(n/8) bytes, and the second is what `LzssCompress` provides.
- The comment on `CombineTags` speaks of the last opening tag whose number is greater; the code takes
  the last whose number is smaller, and only under a further condition.
- The comment on `ParseFile` speaks of steps of four bytes; the code steps by one.

## Model

| member | source | states |
|---|---|---|
| LzssWindow.NumeralOrder | src/compression/IMG3_LzssInterface.cpp:407-410 | windows compare as strings: the first differing byte decides the order of the keys the trees are sorted by |
| LzssWindow.KeyOrder | src/compression/IMG3_LzssInterface.cpp:407-410 | two windows have equal keys exactly when all F bytes agree, and otherwise the first difference orders them, both ways |
| LzssWindow.Between | src/compression/IMG3_LzssInterface.cpp:389-416 | a node between two others in key order shares at least as much with the farther one, so the side of a search path not taken holds no better match |
| LzssWindow.UntouchedKey | src/compression/IMG3_LzssInterface.cpp:313-320 | a window none of whose cells is written keeps its key and its tree |
| LzssForest.AttachKeepsOrder | src/compression/IMG3_LzssInterface.cpp:390-405 | hanging a position at the free link where its key belongs keeps 256 disjoint, ordered trees with mutually inverse links and adds exactly it |
| LzssForest.PathStep | src/compression/IMG3_LzssInterface.cpp:389-402 | every step of the descent keeps the key of the new position on the right side of every node above |
| LzssForest.ReplaceKeepsOrder | src/compression/IMG3_LzssInterface.cpp:417-426 | taking over a node's links keeps the forest ordered, adds the new position and drops exactly the old one |
| LzssForest.EqualKeyFits | src/compression/IMG3_LzssInterface.cpp:411-426 | a node with the very same window may be taken over |
| LzssForest.SpliceKeepsOrder | src/compression/IMG3_LzssInterface.cpp:441-444 | removing a node with a free link keeps the forest ordered and removes exactly it |
| LzssForest.PredecessorFits | src/compression/IMG3_LzssInterface.cpp:446-458 | the last node of the left subtree, spliced out, may stand where the removed node stood |
| LzssForest.UnlinkInner | src/compression/IMG3_LzssInterface.cpp:445-464 | removing a node with two children, direct or deep predecessor, keeps the forest ordered and removes exactly it |
| LzssForest.Removed | src/compression/IMG3_LzssInterface.cpp:439-464 | the link cells DeleteNode leaves behind, in all its cases, are an ordered forest without the node |
| LzssForest.PreparedDefined | src/compression/IMG3_LzssInterface.cpp:459-463 | unlinking stays inside the arrays: the left array is never asked for a root |
| LzssForest.OnlyLiveCounts | src/compression/IMG3_LzssInterface.cpp:435-465 | what dead nodes' cells and the scratch cell of NIL hold does not matter |
| LzssForest.ParentInside | src/compression/IMG3_LzssInterface.cpp:447-454 | a subtree is closed under going up to its top |
| LzssInOrder.TreeIsSorted | src/compression/IMG3_LzssInterface.cpp:379-465 | tree c lists exactly the live positions of first byte c, strictly increasing by window |
| LzssInOrder.IncreasingUnique | src/compression/IMG3_LzssInterface.cpp:379-465 | a strictly increasing list is determined by its elements |
| LzssInOrder.OrderAfterRemoval | src/compression/IMG3_LzssInterface.cpp:435-465 | after a removal every tree is its old in-order sequence without the removed position |
| LzssInOrder.OrderAfterAddition | src/compression/IMG3_LzssInterface.cpp:379-405 | after an insertion every tree is its old in-order sequence with the new position in it |
| LzssInOrder.OrderAfterExchange | src/compression/IMG3_LzssInterface.cpp:417-426 | after a take-over every tree is its old sequence with the new position for the old one |
| LzssEncodeState.EncodeState.InitState | src/compression/IMG3_LzssInterface.cpp:359-371 | empty trees, a blank ring up to its last F cells, zero bytes in the rest and in the mirror tail |
| LzssEncodeState.EncodeState.LastBefore | src/compression/IMG3_LzssInterface.cpp:446-450 | finds the last node of the left subtree of a node with two children |
| LzssEncodeState.EncodeState.DeleteNode | src/compression/IMG3_LzssInterface.cpp:435-465 | removes exactly p from the trees; each in-order sequence is the old one without p; nothing changes if p is absent; the forest invariant is kept |
| LzssEncodeState.EncodeState.Compare | src/compression/IMG3_LzssInterface.cpp:407-410 | the number of leading bytes two windows share, and the difference that ended the comparison |
| LzssEncodeState.ProbeStep | src/compression/IMG3_LzssInterface.cpp:389-416 | a step of the search either meets an equal window or goes on into a smaller subtree, with no better match left behind |
| LzssEncodeState.ProbeEnd | src/compression/IMG3_LzssInterface.cpp:391-405 | at a free link the best match met is the best in all trees, and the new position belongs there |
| LzssEncodeState.EncodeState.Search | src/compression/IMG3_LzssInterface.cpp:384-416 | ends at the free link for r or at an equal window; match fields hold the longest match with any node |
| LzssEncodeState.EncodeState.InsertNode | src/compression/IMG3_LzssInterface.cpp:379-427 | match_length is the longest common prefix with any node there was, match_position attains it; r is added, only a node with the same window can leave, all others keep their order |
| LzssStream.LatestUnique | src/compression/include/IMG3_LzssInterface.h:52 | each cell of the ring holds one of the last N stream offsets |
| LzssStream.RingStep | src/compression/IMG3_LzssInterface.cpp:313-320 | storing the next byte keeps the ring the last N bytes of the stream |
| LzssStream.RingRead | src/compression/IMG3_LzssInterface.cpp:217 | any of the last N bytes can be read back from its cell |
| LzssStream.ExpandAppend | src/compression/IMG3_LzssInterface.cpp:201-223 | decoding a unit more applies that unit to the output so far |
| LzssPacking.ParsePack | src/compression/IMG3_LzssInterface.cpp:284-307 | reading what was packed gives back exactly the units, and nothing after them |
| LzssPacking.PairCode | src/compression/IMG3_LzssInterface.cpp:292-295 | position and length survive the two bytes of a pair |
| LzssPacking.ParseGroup | src/compression/IMG3_LzssInterface.cpp:201-222 | flags and codes of a group read back as its units |
| LzssPacking.PackAppend | src/compression/IMG3_LzssInterface.cpp:297-308 | whole groups can be sent before what follows them |
| LzssPacking.FlagsAppend | src/compression/IMG3_LzssInterface.cpp:288 | or-ing the mask in adds the flag of the next unit and changes no other |
| LzssPacking.PackSize | src/compression/IMG3_LzssInterface.cpp:297-348 | the code has a byte for every eight units begun besides the codes of the units |
| LzssPacking.PackBound | src/compression/IMG3_LzssInterface.cpp:104-123 | the code of units for n bytes takes at most n + ceil(n/8) bytes |
| LzssPacking.DecodedBound | src/compression/IMG3_LzssInterface.cpp:201-223 | no source decodes to more than 144 bytes for 17 |
| LzssPacking.ParseMost | src/compression/IMG3_LzssInterface.cpp:201-225 | n bytes of code stand for at most Most(n) bytes of text |
| LzssPacking.MostAttained | src/compression/IMG3_LzssInterface.cpp:201-225 | some code of n bytes stands for that much |
| LzssPacking.MostGroups | src/compression/IMG3_LzssInterface.cpp:201-225 | it is 144 bytes for every 17, exactly so for whole groups |
| LzssFormat.BlankPair | src/compression/IMG3_LzssInterface.cpp:197-223 | a first pair that reads n cells below 4078 decodes to n blanks |
| LzssFormat.SamplePair | src/compression/IMG3_LzssInterface.cpp:201-223 | flags 3, two letters and the pair EE F1 decode to the letters three times over |
| LzssFormat.ParseCut | src/compression/IMG3_LzssInterface.cpp:201-225 | code that its last byte is taken from loses its last unit at most, and no other changes |
| LzssDecompressor.RegisterCounts | src/compression/IMG3_LzssInterface.cpp:202-205 | bit 8 of the flag register is clear exactly after eight units, and a shift brings the next flag down |
| LzssDecompressor.RegisterFull | src/compression/IMG3_LzssInterface.cpp:204 | a flag byte with the high byte of ones starts a group of eight |
| LzssDecompressor.Emit | src/compression/IMG3_LzssInterface.cpp:208-210 | a byte goes to the output and to the ring, whose next cell moves on |
| LzssDecompressor.Replay | src/compression/IMG3_LzssInterface.cpp:216-221 | a pair is replayed byte by byte from the output itself, into bytes it has just written if it overlaps |
| LzssDecompressor.DecodePair | src/compression/IMG3_LzssInterface.cpp:212-221 | a pair whose code is complete is decoded, one the source ends in is dropped |
| LzssDecompressor.Decompress | src/compression/IMG3_LzssInterface.cpp:186-226 | for every source it ends, has read all of it, and has written what the source's units expand to, the F uninitialised cells being arbitrary; the rest of the buffer is unchanged |
| LzssMatching.LoadStep | src/compression/IMG3_LzssInterface.cpp:313-320 | reading a byte into the ring and its mirror cell keeps the buffer up to date |
| LzssMatching.WindowText | src/compression/IMG3_LzssInterface.cpp:310-338 | a window read straight on into the mirror tail agrees with the ring modulo N and with the stream, as far as text was read |
| LzssMatching.RingsAgree | src/compression/IMG3_LzssInterface.cpp:197-223 | the decoder's ring and the compressor's buffer agree on the N-F cells behind the next offset |
| LzssMatching.OldestLeaves | src/compression/IMG3_LzssInterface.cpp:311 | the cell about to be overwritten is that of the oldest offset, and deleting it leaves the others |
| LzssMatching.WindowAvoids | src/compression/IMG3_LzssInterface.cpp:311-320 | no window of an offset that stays reaches the cell being written |
| LzssMatching.TracksLoad | src/compression/IMG3_LzssInterface.cpp:312-320 | overwriting the cell in place changes no key of a live node |
| LzssMatching.SameBlanks | src/compression/IMG3_LzssInterface.cpp:269-275 | of the strings inserted in front of the text two are the same only if they are nothing but blanks |
| LzssMatching.FrontInsert | src/compression/IMG3_LzssInterface.cpp:274-275 | a string inserted takes the place of one that is the same, and of no other |
| LzssMatching.FrontCovers | src/compression/IMG3_LzssInterface.cpp:274-275 | after the insertions every one of the F strings in front of the text has a node with its window |
| LzssMatching.TracksInsert | src/compression/IMG3_LzssInterface.cpp:323-327 | after an insertion every offset of the text in the window, and every one of the F in front of it, is a node or has one with the same window that is no older, or as old as the oldest for strings of nothing but blanks |
| LzssMatching.NextIsFree | src/compression/IMG3_LzssInterface.cpp:323-327 | the position about to be inserted is in no tree |
| LzssMatching.MatchRepeats | src/compression/IMG3_LzssInterface.cpp:283-295 | the bytes at a match repeat in the stream, the match cut off at the end of the text |
| LzssMatching.MatchLongest | src/compression/IMG3_LzssInterface.cpp:379-427 | nothing within the window, text or the F strings in front of it, offers a longer match than the trees did |
| LzssUnits.ChooseOk | src/compression/IMG3_LzssInterface.cpp:284-296 | the unit chosen stands for the text that follows, reads only text or blanks, and is as long as the window, the F strings in front of the text included, allows |
| LzssUnits.BlanksPaired | src/compression/IMG3_LzssInterface.cpp:274-296 | until the first blank leaves the trees a run of more than THRESHOLD blanks is sent as a pair that stands for all of it, up to F |
| LzssUnits.EighteenBlanks | src/compression/IMG3_LzssInterface.cpp:236-352 | right units for a text of eighteen blanks are a single pair |
| LzssUnits.CopyReproduces | src/compression/IMG3_LzssInterface.cpp:216-221 | a pair that repeats what is there reproduces the text, overlapping or not |
| LzssUnits.UnitsReproduce | src/compression/IMG3_LzssInterface.cpp:186-352 | right units decode to the text they stand for, whatever the decoder's ring held |
| LzssUnits.RoundTrip | src/compression/IMG3_LzssInterface.cpp:186-352 | the packed code of right units for the whole text decodes to the text, for every content of the uninitialised cells |
| LzssCompressor.Insert | src/compression/IMG3_LzssInterface.cpp:281 | offset `at` joins the trees and the match fields describe the stream there |
| LzssCompressor.ReadNext | src/compression/IMG3_LzssInterface.cpp:310-328 | one byte in, one offset out: the window moves on and the match for the next offset is found |
| LzssCompressor.GiveUp | src/compression/IMG3_LzssInterface.cpp:329-338 | past the end of the text the window shrinks, down to the last byte |
| LzssCompressor.Fill | src/compression/IMG3_LzssInterface.cpp:263-264 | reads the first F bytes or all of a shorter text |
| LzssCompressor.InsertBlanks | src/compression/IMG3_LzssInterface.cpp:274-275 | every one of the F strings in front of the text is a node or has one with its window, and no other position is a node |
| LzssCompressor.Begin | src/compression/IMG3_LzssInterface.cpp:247-281 | the state before the first unit |
| LzssCompressor.Advance | src/compression/IMG3_LzssInterface.cpp:309-338 | moving over a unit of n bytes leads to the state at the unit boundary n bytes on, with len the bytes read and not yet encoded |
| LzssCompressor.MaskFree | src/compression/IMG3_LzssInterface.cpp:288-289 | the flag bit is free and the code buffer has room: it never exceeds 17 bytes |
| LzssCompressor.AddUnit | src/compression/IMG3_LzssInterface.cpp:286-297 | the code buffer holds the group with the unit added; the mask runs out after eight |
| LzssCompressor.Send | src/compression/IMG3_LzssInterface.cpp:299-305 | sends the code buffer exactly if it fits before the limit |
| LzssCompressor.Pick | src/compression/IMG3_LzssInterface.cpp:283-297 | the right unit at this offset is chosen and added, and match_length becomes its length |
| LzssCompressor.Compress | src/compression/IMG3_LzssInterface.cpp:236-352 | fails exactly on the empty text or when the code does not fit; otherwise its units sum to the text, each is right and the longest that text and the F strings in front of it offer, the output is their packed code, at most n + ceil(n/8) bytes, and decodes to the text for every content of uninitialised cells; nothing else is written |
| Adler32.Lzadler32 | src/compression/IMG3_LzssInterface.cpp:164-177 | reducing at each step gives the checksum of section 2.2 of RFC 1950, reduced only at the end |
| Adler32.LargestPrime | src/compression/IMG3_LzssInterface.cpp:172-173 | the modulus is a prime and no number between it and 65536 is one |
| Adler32.KnownChecksum | src/compression/IMG3_LzssInterface.cpp:164-177 | the checksum of the letters Wikipedia is 0x11E60398 |
| Adler32.SumsStep | src/compression/IMG3_LzssInterface.cpp:170-174 | a byte more adds itself to the first sum and the new first sum to the second |
| Adler32.CombineChecksums | src/compression/IMG3_LzssInterface.cpp:164-177 | the checksum of a concatenation from the checksums of its parts and the length of the second |
| LzssContainer.SetField | src/compression/IMG3_LzssInterface.cpp:125-129 | a field written big-endian reads back as its value, and no other byte changes |
| LzssContainer.WriteHeader | src/compression/IMG3_LzssInterface.cpp:125-130 | five fields and zero padding, the code behind them untouched |
| LzssContainer.RoomToRound | src/compression/IMG3_LzssInterface.cpp:121-123 | from 384 bytes of text on, rounding up to 16 stays inside the buffer |
| LzssContainer.LzssCompress | src/compression/IMG3_LzssInterface.cpp:87-133 | fails below 384 bytes; whenever it succeeds it leaves an archive of the text passed on, 384 bytes and the code rounded up to the next multiple of 16, with the code between 17/144 of the text and the text and ceil(n/8) bytes; succeeds whenever the size passed on has room, and in the range of 32-bit sizes always, with an archive of the whole text |
| LzssContainer.Finish | src/compression/IMG3_LzssInterface.cpp:119-133 | rounds the end of the code up to the next multiple of 16 and puts the header in front of it |
| LzssContainer.Layout | src/compression/IMG3_LzssInterface.cpp:123-130 | what stands where in an archive: the letters complzss, three numbers and zeros, most significant byte first, and the code from byte 384 on |
| LzssContainer.PadIgnored | src/compression/IMG3_LzssInterface.cpp:121-123 | whatever fills the rounding, the archive is an archive of the same text |
| LzssContainer.ArchiveUnique | src/compression/IMG3_LzssInterface.cpp:35-77 | an archive is an archive of one text only |
| LzssContainer.IsFileCompressed | src/compression/IMG3_LzssInterface.cpp:140-156 | accepts data in which either signature is right |
| LzssContainer.HeaderDecides | src/compression/IMG3_LzssInterface.cpp:58-68 | the lengths in a header are safe for every code exactly when the second has room for the most text the first can stand for, for whole groups when it is at least 144/17 of the first |
| LzssContainer.HeaderSuffices | src/compression/IMG3_LzssInterface.cpp:58-68 | a header with that room makes the decoded text fit the buffer, whatever the code |
| LzssContainer.ShortArchiveOverruns | src/compression/IMG3_LzssInterface.cpp:58-68 | an accepted archive whose code does not fit the buffer its header asks for |
| LzssContainer.LzssDecompress | src/compression/IMG3_LzssInterface.cpp:35-77 | succeeds exactly on accepted data, checksum right or wrong, with the decoded bytes at the front of a buffer of the length in the header |
| LzssContainer.RoundTrip | src/compression/IMG3_LzssInterface.cpp:35-133 | decompressing what compressing made of x gives x and its length, and the checksums agree |
| HtmlTags.PartnerFrom | src/html/IMG3_HtmlParser.cpp:338-358 | the search finds the last opening tag of the name before the closing tag, if one comes after it too or it is the only one, and nothing otherwise |
| HtmlTags.RemoveIdSorted | src/html/IMG3_HtmlParser.cpp:285-309 | erasing a tag by number removes exactly it and keeps the list sorted |
| HtmlTags.StepPairs | src/html/IMG3_HtmlParser.cpp:329-360 | a closing tag is paired with that opening tag, both leaving their lists, or nothing changes |
| HtmlPairing.CombineConserves | src/html/IMG3_HtmlParser.cpp:347-354 | no call loses an opening or closing tag or makes one up |
| HtmlPairing.NoPartnerIsHopeless | src/html/IMG3_HtmlParser.cpp:338-358 | a closing tag passed over has no opening tag before it, or two or more and none behind |
| HtmlPairing.StepSafe | src/html/IMG3_HtmlParser.cpp:347-354 | a new pair has one name, opens before it closes, and encloses no tag of its name that is left, nor crosses an older entry, tags complete in themselves included |
| HtmlPairing.CombineSafe | src/html/IMG3_HtmlParser.cpp:311-367 | each call keeps the entries of a name nested or apart, tags complete in themselves included |
| HtmlPairing.RunSafe | src/html/IMG3_HtmlParser.cpp:614-617 | in every state of every run entries nest, opening before closing or complete in themselves, and all tags are conserved |
| HtmlMatching.FinishingNeeds | src/html/IMG3_HtmlParser.cpp:614-617 | if every tag gets paired then every name is balanced and has no two closing tags behind its last opening tag |
| HtmlMatching.CombineProgress | src/html/IMG3_HtmlParser.cpp:311-367 | on a resolvable document a call pairs all tags of a name and leaves a resolvable document with fewer opening tags |
| HtmlMatching.FinishesExactly | src/html/IMG3_HtmlParser.cpp:614-617 | the loop ends with every tag paired exactly when every name is balanced and one closing tag only comes behind its last opening tag |
| HtmlMatching.NestedPairSpins | src/html/IMG3_HtmlParser.cpp:311-367 | on a pair nested in a pair no call changes anything and the loop never ends |
| HtmlMatching.FirstIsForced | src/html/IMG3_HtmlParser.cpp:327-328 | in a well-nested matching the first closing tag goes with the last opening tag before it |
| HtmlMatching.MatchingUnique | src/html/IMG3_HtmlParser.cpp:327-328 | there is one well-nested matching of the tags only |
| HtmlMatching.RunPairs | src/html/IMG3_HtmlParser.cpp:614-617 | a run that leaves no opening tag has made a well-nested matching of all tags but the closing tags left |
| HtmlMatching.FinishedPairs | src/html/IMG3_HtmlParser.cpp:614-617 | when pairing finishes its pairs are the matching of the document |
| HtmlMatching.CombineAfter | src/html/IMG3_HtmlParser.cpp:347-354 | pairs made before have no part in pairing |
| HtmlMatching.RunAfter | src/html/IMG3_HtmlParser.cpp:614-617 | entries made before have no part in a whole run |
| HtmlEnding.EndsExactly | src/html/IMG3_HtmlParser.cpp:614-617 | on any document the loop ends exactly when, for each name with opening tags, all but the last are closed before the last, the last is closed, and every closing tag in front of the first one of the name closes something |
| HtmlEnding.EndsNeeds | src/html/IMG3_HtmlParser.cpp:614-617 | a loop that ends had no name that cannot be resolved and met no closing tag in its way that closes nothing |
| HtmlEnding.InsolubleStays | src/html/IMG3_HtmlParser.cpp:329-360 | no pair helps a name of which an opening tag will stay |
| HtmlEnding.PassUseless | src/html/IMG3_HtmlParser.cpp:329-360 | a closing tag that closes nothing is not paired and never comes to close anything |
| HtmlEnding.BlocksStays | src/html/IMG3_HtmlParser.cpp:311-367 | a closing tag that closes nothing, in front of all those of a name with opening tags, is so after every call |
| HtmlEnding.DeepBack | src/html/IMG3_HtmlParser.cpp:347-354 | taking out a pair with no tag of its name between opens no place to a closing tag |
| HtmlEnding.FirstFindsPartner | src/html/IMG3_HtmlParser.cpp:338-358 | the first closing tag of a name that can be resolved is paired if it closes something |
| HtmlEnding.PassSolves | src/html/IMG3_HtmlParser.cpp:329-360 | a pass over such a name pairs all its opening tags, and every closing tag that closes something |
| HtmlEnding.CombineEnds | src/html/IMG3_HtmlParser.cpp:311-367 | on a document that will end a call leaves fewer opening tags, and a document that will end |
| HtmlEnding.IdleStays | src/html/IMG3_HtmlParser.cpp:311-367 | the closing tags that close nothing are the same before and after a call |
| HtmlEnding.EndedIdle | src/html/IMG3_HtmlParser.cpp:614-617 | when the loop has ended, exactly the closing tags that close nothing are left |
| HtmlEnding.EndedPairs | src/html/IMG3_HtmlParser.cpp:614-617 | when the loop has ended, its pairs are the well-nested matching of all tags but those |
| HtmlEnding.ResolvableWillEnd | src/html/IMG3_HtmlParser.cpp:614-617 | every tag can be paired exactly when the loop ends and every closing tag closes something |
| HtmlStack.PopOff | src/html/IMG3_HtmlParser.cpp:327-358 | taking the top of the stack and the first closing tag away leaves every other closing tag closing something, or nothing, as before |
| HtmlStack.StackMakes | src/html/IMG3_HtmlParser.cpp:327-358 | a matching of the tags and those closing tags that close something is what a stack of opening tags makes |
| HtmlStack.EndedStack | src/html/IMG3_HtmlParser.cpp:614-617 | when the loop has ended, the pairs of each name are those of the stack matching, closing tags that meet an empty stack being passed by |
| HtmlNumbering.OpeningNumbered | src/html/IMG3_HtmlParser.cpp:239-247 | an opening tag added keeps numbers distinct, lists in order and entries nested |
| HtmlNumbering.CompleteNumbered | src/html/IMG3_HtmlParser.cpp:239-247 | a tag complete in itself added keeps numbers distinct, lists in order and entries nested |
| HtmlNumbering.ClosingNumbered | src/html/IMG3_HtmlParser.cpp:276-280 | a closing tag added keeps numbers distinct, lists in order and entries nested |
| HtmlNumbering.CombineNumbered | src/html/IMG3_HtmlParser.cpp:311-367 | every call of CombineTags keeps numbers distinct, lists in order and entries nested |
| HtmlNumbering.RunNumbered | src/html/IMG3_HtmlParser.cpp:614-617 | every run keeps numbers distinct, lists in order and entries nested |
| HtmlNumbering.NumberedFirsts | src/html/IMG3_HtmlParser.cpp:402-430 | no two entries of a parser's list have the same opening number |
| HtmlParser.Parser.AddOpeningTag | src/html/IMG3_HtmlParser.cpp:239-247 | numbers the tag and lists it as open, or as a pair with itself; no number comes twice and entries stay nested |
| HtmlParser.Parser.AddClosingTag | src/html/IMG3_HtmlParser.cpp:276-280 | numbers the tag and lists it as closing |
| HtmlParser.Parser.RemoveOpeningTag | src/html/IMG3_HtmlParser.cpp:285-296 | erases the first opening tag of that number |
| HtmlParser.Parser.RemoveClosingTag | src/html/IMG3_HtmlParser.cpp:298-309 | erases the first closing tag of that number |
| HtmlParser.Parser.GetAllOpeningTagsByName | src/html/IMG3_HtmlParser.cpp:113-131 | the opening tags of a name, in order |
| HtmlParser.Parser.GetAllClosingTagsByName | src/html/IMG3_HtmlParser.cpp:133-151 | the closing tags of a name, in order |
| HtmlParser.Parser.PairOne | src/html/IMG3_HtmlParser.cpp:330-359 | the lists after one closing tag are those of the pairing step |
| HtmlParser.Parser.CombineTags | src/html/IMG3_HtmlParser.cpp:311-367 | the lists after a call are those of the pass over the first closing tag's name; zero exactly when no opening tag is left; numbers stay distinct and entries nested |
| HtmlParser.Parser.PairAllTags | src/html/IMG3_HtmlParser.cpp:614-617 | on every document on which the loop can end it ends, no opening tag is left, the closing tags left are those that close nothing, and the new pairs are the matching of all other tags |
| HtmlParser.Parser.FirstLeast | src/html/IMG3_HtmlParser.cpp:416-425 | the first pair with the least opening number |
| HtmlParser.Parser.SortTagsById | src/html/IMG3_HtmlParser.cpp:402-430 | moves the least pairs in ascending order and conserves all; from an empty sorted list it leaves a strictly increasing permutation of the pairs of any list the parser builds |
| HtmlParser.Parser.PairAndSort | src/html/IMG3_HtmlParser.cpp:614-623 | from any document on which the loop can end: the sorted list is a strictly increasing permutation of the complete tags and the pairs made, and these are the matching of all tags but the closing tags that close nothing |
| HtmlSorting.MoveLeast | src/html/IMG3_HtmlParser.cpp:426-428 | moving the least of the rest behind the sorted ones keeps them ascending and below the rest |
| HtmlSorting.SortedStrictly | src/html/IMG3_HtmlParser.cpp:402-430 | an ascending permutation of pairs with distinct numbers ascends strictly |
| Img3FileInterface.FileSection.ParseSection | src/sections/IMG3_FileSection.cpp:45-128 | records header, data slice and place of a known section; anything else fails and only drops the data |
| Img3Sections.TypeSpellsLetters | src/sections/IMG3_FileSection.cpp:152-188 | a magic number is of a type exactly when it spells the type's four letters |
| Img3Sections.InnerKinds | src/sections/IMG3_FileInterface.cpp:173-188 | the scan stops at the magic numbers that spell one of fourteen names of sections, and at no others |
| Img3Scan.EndsExactly | src/sections/IMG3_FileInterface.cpp:171-211 | on any memory the scan ends exactly when it may read wherever it comes and comes to no offset twice, and then within as many steps as there are offsets |
| Img3Scan.ForwardExactly | src/sections/IMG3_FileInterface.cpp:171-211 | the scan goes forward, over sections that have a length and an end in range, exactly when it ends and no section it comes to wraps |
| Img3Scan.Stuck | src/sections/IMG3_FileInterface.cpp:201-202 | a section of length zero in the range keeps the scan where it is for ever |
| Img3Scan.ComesBack | src/sections/IMG3_FileInterface.cpp:171-211 | a scan that comes back to an offset never ends |
| Img3Scan.ScanMeets | src/sections/IMG3_FileInterface.cpp:171-211 | whether it goes forward or wraps, a scan that ends lists exactly the sections at the offsets it comes to |
| Img3Counterexamples.ZeroImageSpins | src/sections/IMG3_FileInterface.cpp:201-202 | an image with a section of length zero on which the scan, reading only what it may, never ends |
| Img3Counterexamples.WrapImageSpins | src/sections/IMG3_FileInterface.cpp:201-202 | an image whose sections all have lengths, one past 32 bits, on which the scan goes round |
| Img3Counterexamples.BackImageEnds | src/sections/IMG3_FileInterface.cpp:201-202 | an image with a section that wraps on which the scan ends all the same, listing a section inside another |
| Img3Scan.ScanListed | src/sections/IMG3_FileInterface.cpp:171-211 | sections listed are sections of the memory, in order, with disjoint extents |
| Img3Scan.ScanMissesNothing | src/sections/IMG3_FileInterface.cpp:171-211 | every section header in the range is listed or lies inside a listed section |
| Img3Sections.BlobAt | src/sections/IMG3_FileSection.cpp:45-128 | the bytes of one section are recorded with their own header and data slice |
| Img3Scan.ScanRecovers | src/sections/IMG3_FileInterface.cpp:171-211 | the scan over sections put one behind the other recovers exactly those sections |
| Img3FileInterface.FileInterface.ParseFile | src/sections/IMG3_FileInterface.cpp:122-219 | on any data on which its scan ends: succeeds exactly on an image whose header counts its length, and then lists that header and what the scan behind it finds, on a well-formed image exactly its sections, every one with data as long as its header says; a failed parse leaves the list empty, no data leaves it alone |
| Img3FileInterface.FileInterface.Record | src/sections/IMG3_FileInterface.cpp:189-201 | adds the section at an offset to the list |
| Img3FileInterface.FileInterface.GetSection | src/sections/IMG3_FileInterface.cpp:234-250 | all sections of a type, in order: those at all places of the list where the type is |
| Img3FileInterface.FileInterface.GetSectionData | src/sections/IMG3_FileInterface.cpp:252-264 | the data recorded with the first section of a type; nothing if there is no such section |
| Img3FileInterface.FileInterface.GetSectionDataLength | src/sections/IMG3_FileInterface.cpp:266-278 | the data length recorded with the first section of a type; zero if there is no such section |
| Img3FileInterface.SectionHasData | src/sections/IMG3_FileSection.cpp:45-128 | the copy of a section's data is as long as its header says |
| Img3FileInterface.ListHasData | src/sections/IMG3_FileInterface.cpp:145-213 | in the list of an image that parses every section but the image header has a copy of its data as long as its header says |
| Img3FileInterface.RetrieveData | src/IMG3_Functions.cpp:581-593 | the data of the first DATA section of a file with exactly their length, or nothing |
| Img3FileInterface.ImageBegins | src/sections/IMG3_FileInterface.cpp:147-167 | the first bytes in memory of an image are 3gmI and its length |
| Img3FileInterface.WellFormedParses | src/sections/IMG3_FileInterface.cpp:145-213 | a well-formed image is accepted and its scan finds exactly its sections with their data |
| Img3FileInterface.ParsedImage | src/sections/IMG3_FileInterface.cpp:145-213 | on any image on which the scan goes forward the extents are disjoint and increasing, so that nothing inside a section such as CERT is listed, and no header outside them is missed |
| Img3FileInterface.WellFormedRecovered | src/sections/IMG3_FileInterface.cpp:145-213 | the list of a well-formed image is its header and exactly its sections, in order and with their data |

## Left out

- LzssMatching.MatchLongest: of the F strings in front of the text, those of nothing but blanks count only until the oldest of them leaves, at offset N - 2F: inserted last, it has taken the place of all others, and they leave with it while their own cells are still in the window. All others count as long as they are in the window.
- LzssContainer.LzssCompress: for texts with 2n + 384 beyond 32 bits, whose sizes are cut off as they are passed on, promises success only where what is left of the size has room for any code.
- LzssContainer.LzssDecompress: requires the lengths of an accepted header to keep to the data and to the decoded text; the code relies on it without a test (`LzssContainer.ShortArchiveOverruns`), and `LzssContainer.HeaderDecides` says when a header alone assures it. Bytes behind the decoded text are whatever the new buffer held.
- Img3FileInterface.FileInterface.ParseFile: requires what it reads to be readable and its scan to end; on all other data, by `Img3Scan.EndsExactly`, the scan comes to an offset twice and goes round, or reads outside the data.
- HtmlParser.Parser.CombineTags: requires a closing tag if there is an opening one; the code takes the front of the list without a test.
- HtmlParser.Parser.PairAllTags: requires a document on which the loop can end; on all others, by `HtmlEnding.EndsExactly`, it goes on for ever or runs out of closing tags.
- HtmlParser.Parser.AddOpeningTag: takes the name ready; finding tags in text, filters and attributes are left out, and tag numbers are not cut off at 32 bits.
- Img3FileInterface.FileSection.ParseSection: the copy of the data is a value, not a new buffer.
- WriteData, WriteSectionData and PrintSections of the section classes; RetrieveDataBetweenTags, ExtractDecryptionInfo, GetAllTagsByName, GetAllSortedTagsByName and GetNextTag of the parser.
- Allocation failure, null arguments, error codes and messages.
- The command line, file access, AES decryption, the zip walk and the database.
