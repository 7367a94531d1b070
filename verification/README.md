# Verified models of the algorithms under `src/external`

This Dafny project models four algorithms that the repository carries under `src/external` and
proves what they promise, for all inputs.

**The assignment solver** (`Assignment`, `ColumnMajor`, `MunkresState`, `Exactness`, `Hungarian`).
`Hungarian` is the imperative solver: a class over flat column-major arrays whose steps 2a, 2b, 3,
4 and 5 call each other. `MunkresState` is the same state on values (potentials, stars, primes, covers
and the time each row was covered) with the invariants of every reachable state. `Assignment`
knows nothing of the algorithm: matchings, costs and linear-programming duality. Arithmetic is
exact, over `real`, with the test `fabs(x) < DBL_EPSILON` as it stands. The answer is never more
than min(rows, cols) * DBL_EPSILON from the cheapest. `Exactness` says when it is the cheapest:
when the entries lie on a grid no finer than DBL_EPSILON (whole numbers, or whole multiples of
1 / 4503599627370496), when no other assignment comes that near, and, for a single row or column,
if and only if the first entry near the smallest is the smallest. Entries may be negative; the code only warns about them.

**The section tracker** (`SectionTree`, `Tracking`, `RunContext`). A test case is a tree of
sections. `RunContext` is the tracker context and the loop that runs a test body again and
again; `Tracking` says what the trackers of a section look like after some of its leaves have
been run. Trackers are kept under their path from the root. `startCycle`, `currentTracker` and
`isSuccessfullyCompleted` are declared in a header that is not part of this model; their meaning
is taken from their use: the current tracker is the root and the cycle is not complete, and the
state is CompletedSuccessfully.

**The Protocol Buffers decoder** (`Varint`, `Wire`, `Message`, `DecodeLaws`, `UnionLaw`,
`RecordLaws`, `RoundTrip`, `NestingLaw`, `MetricsRecord`, `Stream`, `Descriptor`, `Decoder`).
`Varint`, `Wire` and `Message` say what bytes mean, as functions. The laws of that meaning do not
rest on those functions alone: `RecordLaws` tells what a decoded message holds from the list of
records on the wire, and `RoundTrip` writes numbers, bytes, runs and submessages with an encoder
of its own, in the numbers of the encoding, and reads them back.
`Stream`, `Descriptor` and `Decoder` are the code: streams with a position and the bytes left,
a cursor over bit-packed descriptors, and the recursive decoder, proved to compute that meaning.
The encoding is that of the Protocol Buffers Encoding specification ("Base 128 Varints",
"Message Structure", "Last One Wins").

**The block decoder** (`BitStream`, `Partitions`, `Bc7Layout`, `Bc7Laws`, `Bc7`). `BitStream` is the
two-word bit reader, `Bc7Layout` gives the position of every field of a BC7 block in closed form
and the colour of every texel, and `Bc7` is the decoder, which reads one field after the other.
`Bc7Laws` says what the layout means: where the fields of each mode are, in numbers, which bits
colour and alpha depend on, and what a texel is at the first and the last index.
`Partitions` holds the partition tables. The methods take the tables as a parameter of type
`Sets`, so their results hold for any tables with as many fix-ups as subsets;
`Partitions.PartitionSets` makes the tables of the code and shows that they are such.

Where a comment and the code disagree the model follows the code: the end of `step2a` calls
`step2b` although its comment names step 3 (Hungarian.hpp:277-278), and the comment that all
entries have to be non-negative (Hungarian.hpp:103-117) is not needed for any result. The range
assertions of the wide descriptor formats (pb.h:787-791) cast the size offset to 8 bits before
checking it, so they let 256 pass and pack 0, and let -200 pass and pack 56;
`Descriptor.SizeOffsetLost` shows both and `Descriptor.FaithfulExactly` gives the exact condition.

## Model

| member | source | states |
|---|---|---|
| Hungarian.Solve | src/external/hungarian/Hungarian.hpp:64-91 | for every non-empty matrix, negative entries included: an injective assignment with exactly min(rows, cols) matched rows and -1 elsewhere, the returned cost is that of the original entries, and no complete assignment is cheaper by more than min(rows, cols) times DBL_EPSILON; none is cheaper at all when the entries are whole multiples of 1 / 4503599627370496 or lie on any coarser grid, or when no other assignment comes that near to the cheapest; for a single row or column none is cheaper if and only if the first entry within DBL_EPSILON of the smallest is the smallest |
| Hungarian.CheapestIsMissed | src/external/hungarian/Hungarian.hpp:159-167 | on [[1 / 9007199254740992, 0]] the dearer first entry is chosen |
| Hungarian.NearTie | src/external/hungarian/Hungarian.hpp:161 | of two entries the first, dearer by x, is chosen if and only if x is below 1 / 4503599627370496 |
| Exactness.MultiplesAreSeparated | src/external/hungarian/Hungarian.hpp:161 | whole multiples of 1 / 4503599627370496 lie on a grid that the zero test resolves |
| Exactness.RowIsExactly | src/external/hungarian/Hungarian.hpp:135-167 | what is taken of a single row is the cheapest if and only if the first entry within the tolerance of the smallest is the smallest |
| Exactness.ColumnIsExactly | src/external/hungarian/Hungarian.hpp:173-203 | the same for a single column |
| Exactness.IsolatedIsExact | src/external/hungarian/Hungarian.hpp:161 | an answer within the bound is the cheapest when no complete assignment is dearer than the cheapest by at most the bound |
| Exactness.IntegersAreSeparated | src/external/hungarian/Hungarian.hpp:161 | whole numbers lie on a grid no finer than DBL_EPSILON |
| Hungarian.AssignmentOptimal | src/external/hungarian/Hungarian.hpp:97-224 | for the flat column-major buffer: a complete assignment at most min(rows, cols) tolerances dearer than any other, and its cost; a single row or column takes its first entry within the tolerance of the smallest |
| Hungarian.FillIn | src/external/hungarian/Hungarian.hpp:74-76 | the buffer holds every entry of the matrix at its column-major place |
| Hungarian.ComputeAssignmentCost | src/external/hungarian/Hungarian.hpp:245-255 | the cost is the sum of the entries on the assignment; unmatched rows cost nothing |
| Hungarian.Munkres.Preliminaries | src/external/hungarian/Hungarian.hpp:130-207 | wide and tall matrices: every line of the shorter side has lost its smallest entry, each of them in turn has starred its first zero in a line not starred before, exactly the starred columns are covered, no row is, and no further zero can be starred without moving a star |
| Hungarian.Munkres.ReduceRows | src/external/hungarian/Hungarian.hpp:135-156 | every row loses its smallest entry, which makes feasible potentials; the columns are left as they are |
| Hungarian.Munkres.ReduceColumns | src/external/hungarian/Hungarian.hpp:173-191 | every column loses its smallest entry; the rows are left as they are |
| Hungarian.Munkres.StarRows | src/external/hungarian/Hungarian.hpp:159-167 | each row in turn stars its first zero in a column that no earlier row has starred, if there is one; the stars are a matching and their columns are covered |
| Hungarian.Munkres.StarColumns | src/external/hungarian/Hungarian.hpp:194-203 | each column in turn stars its first zero in a row that no earlier column has starred; the row marks are cleared at the end |
| Hungarian.Munkres.Step2a | src/external/hungarian/Hungarian.hpp:258-279 | from a matching whose covered columns all hold stars, the recursion ends with a complete matching that feasible potentials show to be cheapest, and that is what the assignment vector holds |
| Hungarian.Munkres.Step2b | src/external/hungarian/Hungarian.hpp:282-303 | the same from a fresh search; the state is left as it is when the matching is already complete |
| Hungarian.Munkres.Step3 | src/external/hungarian/Hungarian.hpp:306-346 | the same from any state of a search with a star missing; the recursion decreases in missing stars, uncovered rows and whether an uncovered zero exists |
| Hungarian.Munkres.Step4 | src/external/hungarian/Hungarian.hpp:349-400 | the same from a primed zero in a row without a star |
| Hungarian.Munkres.Step5 | src/external/hungarian/Hungarian.hpp:403-434 | from a search with a star missing and no uncovered zero left, the recursion ends with a complete matching that feasible potentials show to be cheapest |
| Hungarian.Munkres.PrimeZeros | src/external/hungarian/Hungarian.hpp:311-342 | keeps the search invariant, stars and potentials, and ends with an uncovered zero in a row without a star or with no uncovered zero at all |
| Hungarian.Munkres.FlipChain | src/external/hungarian/Hungarian.hpp:354-386 | the loop along the alternating chain ends, always finds its prime, and leaves a matching with one more star in which starred rows and columns stay starred |
| Hungarian.Munkres.AdjustPotentials | src/external/hungarian/Hungarian.hpp:408-430 | the adjustment is the smallest uncovered entry, at least DBL_EPSILON when no uncovered zero is left; search invariant, stars and covers are kept, the buffer is the original matrix less the adjusted potentials, and some uncovered entry is now zero |
| Hungarian.Munkres.FindSmallestUncovered | src/external/hungarian/Hungarian.hpp:408-418 | finds the smallest uncovered entry, which always exists while a star is missing |
| Hungarian.Munkres.CoverStarredColumns | src/external/hungarian/Hungarian.hpp:263-275 | afterwards exactly the starred columns are covered |
| Hungarian.Munkres.CountCoveredColumns | src/external/hungarian/Hungarian.hpp:286-290 | the number of covered columns is the number of stars, at most min(rows, cols) |
| Hungarian.Munkres.BuildAssignmentVector | src/external/hungarian/Hungarian.hpp:227-242 | each row gets the column of its star, or stays at -1 |
| MunkresState.CoveredLinesAreStars | src/external/hungarian/Hungarian.hpp:306-346 | during a search the covered lines are as many as the stars |
| MunkresState.UncoveredEntry | src/external/hungarian/Hungarian.hpp:408-418 | with fewer stars than can be matched, some entry is uncovered |
| MunkresState.PrimeAndCoverKeeps | src/external/hungarian/Hungarian.hpp:320-340 | priming a zero, covering its row and uncovering the column of the row's star keeps the whole search invariant, and covers one more row |
| MunkresState.AdjustKeeps | src/external/hungarian/Hungarian.hpp:420-430 | adding h to covered rows and taking it off uncovered columns keeps the whole search invariant (feasibility and signs of the potentials, tight stars and primes, covers) and makes an uncovered entry zero |
| MunkresState.AdjustmentIsPositive | src/external/hungarian/Hungarian.hpp:408-418 | with no uncovered zero the smallest uncovered entry is at least DBL_EPSILON |
| MunkresState.ChainNext | src/external/hungarian/Hungarian.hpp:367-386 | moving that star to the prime of its row keeps the invariant of the chain: apart from the star about to move, rows have distinct columns |
| MunkresState.ChainMeets | src/external/hungarian/Hungarian.hpp:372-376 | a star met in the column just taken lies in a covered row that has a prime; the prime is in an uncovered column, and the next star, if any, in a row covered strictly earlier |
| MunkresState.ChainEnds | src/external/hungarian/Hungarian.hpp:388-394 | a finished chain gives a matching with exactly one more star; starred rows and columns stay starred |
| MunkresState.AugmentKeeps | src/external/hungarian/Hungarian.hpp:388-399 | taking the new stars and dropping primes and row covers keeps the invariant of a new search |
| MunkresState.WithStarKeeps | src/external/hungarian/Hungarian.hpp:161-166 | starring a free zero keeps the invariant |
| MunkresState.RowTakes | src/external/hungarian/Hungarian.hpp:159-167 | starring the first free zero of a row keeps what the earlier rows took |
| MunkresState.ColumnTakes | src/external/hungarian/Hungarian.hpp:194-203 | the same for columns |
| MunkresState.FinishedIsCheapest | src/external/hungarian/Hungarian.hpp:292-296 | an invariant state with min(rows, cols) stars is cheapest up to the tolerance of the stars |
| MunkresState.OnlyZeroIsSmall | src/external/hungarian/Hungarian.hpp:161 | on a grid no finer than DBL_EPSILON the zero test accepts zero only |
| Assignment.WeakDuality | src/external/hungarian/Hungarian.hpp:93-97 | feasible potentials bound the cost of every complete assignment, wide or tall |
| Assignment.TightIsCheapest | src/external/hungarian/Hungarian.hpp:93-97 | a complete assignment tight up to a tolerance costs at most min(rows, cols) tolerances more than any other |
| Assignment.MatchedRowsAreColumns | src/external/hungarian/Hungarian.hpp:288-292 | a matching has as many rows as columns, so counting covered columns counts stars |
| ColumnMajor.IdxInjective | src/external/hungarian/Hungarian.hpp:76 | different cells have different places in the column-major buffer |
| ColumnMajor.IdxIsColumnMajor | src/external/hungarian/Hungarian.hpp:70-76 | the place of row r and column c is r + rows * c |
| RunContext.RunContext.RunTest | src/external/Catch2/catch_amalgamated.cpp:5634-5651 | for every finite section tree with distinct siblings the loop ends after exactly as many cycles as there are leaves; cycle k enters exactly the sections on the way to the k-th leaf in document order; no tracker that is not open is ever closed |
| RunContext.RunContext.RunCycle | src/external/Catch2/catch_amalgamated.cpp:5635-5651 | one cycle enters the path of the next leaf, and reports completion exactly after the last one |
| RunContext.RunContext.SectionStarted | src/external/Catch2/catch_amalgamated.cpp:5713-5733 | finds or creates the tracker under the current one, opens it unless the cycle is over or it is complete, and is entered exactly when it is open |
| RunContext.RunContext.SectionEnded | src/external/Catch2/catch_amalgamated.cpp:5779-5791 | closes the innermost active section and returns to its parent |
| RunContext.RunContext.Acquire | src/external/Catch2/catch_amalgamated.cpp:6816-6845 | the tracker map after acquire and tryOpen |
| RunContext.RunContext.FindChild | src/external/Catch2/catch_amalgamated.cpp:6672-6685 | the first child with the same name, file and line |
| RunContext.RunContext.Open | src/external/Catch2/catch_amalgamated.cpp:6737-6742 | the tracker executes and its ancestors execute children |
| RunContext.RunContext.OpenChild | src/external/Catch2/catch_amalgamated.cpp:6696-6703 | the tracker and its ancestors up to the first that already executes children execute children; no other tracker changes |
| RunContext.RunContext.Close | src/external/Catch2/catch_amalgamated.cpp:6744-6772 | completes a tracker that ran no child or whose children are all complete; completes the cycle; closing a tracker that is not open is flagged |
| RunContext.RunContext.StartRun | src/external/Catch2/catch_amalgamated.cpp:6705-6714 | a run starts with the root tracker only, the context executing, and no leaf of any test case run |
| Tracking.OpenedChildIs | src/external/Catch2/catch_amalgamated.cpp:6696-6703 | which trackers opening a child reaches, and that it changes no other |
| RunContext.RunContext.RunSection | src/external/Catch2/catch_amalgamated.cpp:5713-5733 | a section of the body is skipped or run so that earlier siblings stay complete, at most one is partly run and later ones have not started |
| RunContext.RunContext.RunBody | src/external/Catch2/catch_amalgamated.cpp:5636-5642 | running a body runs at most one leaf, and exactly one if it has sections |
| Tracking.MidAcquires | src/external/Catch2/catch_amalgamated.cpp:6816-6833 | acquiring the i-th section keeps the siblings' invariant, whether its tracker existed or is new |
| Tracking.MidEnters | src/external/Catch2/catch_amalgamated.cpp:6835-6845 | a section that is not complete holds the next leaf, and opening it makes it ready to run that leaf |
| Tracking.MidSkips | src/external/Catch2/catch_amalgamated.cpp:6835-6845 | a complete section, or any section met after the leaf has been run, is not open and the siblings' invariant goes on past it |
| Tracking.MidLeaves | src/external/Catch2/catch_amalgamated.cpp:6744-6772 | closing a section after its body has run one more leaf restores the siblings' invariant with one more leaf done |
| Tracking.KidsComplete | src/external/Catch2/catch_amalgamated.cpp:6757-6760 | all children are complete exactly when every leaf has been run |
| Tracking.CycleBegins | src/external/Catch2/catch_amalgamated.cpp:5635-5636 | between cycles, acquiring the test case's tracker finds or creates the one child of the root, not complete while leaves are left, and opens it ready to run the next leaf |
| Tracking.CycleEnds | src/external/Catch2/catch_amalgamated.cpp:5651 | closing the test case completes it exactly when its last leaf has been run |
| Tracking.RepFrame | src/external/Catch2/catch_amalgamated.cpp:6744-6772 | a change outside a subtree does not change what its trackers say |
| SectionTree.PathInSection | src/external/Catch2/catch_amalgamated.cpp:5634-5651 | the k-th leaf of a body lies in the section whose range contains k |
| Stream.IStream.DecodeVarint | src/external/nanopb/pb_decode.c:242-262 | accepts exactly the base-128 strings of at most ten bytes that denote a value below 2^64, returns that value and takes exactly their bytes |
| Stream.IStream.DecodeVarint32Eof | src/external/nanopb/pb_decode.c:170-234 | accepts exactly the strings whose bytes beyond 32 bits are zero or a sign extension, returns the low 32 bits; end of stream is flagged exactly on an empty stream |
| Varint.Accepted32IsAccepted64 | src/external/nanopb/pb_decode.c:170-262 | whatever the 32-bit decoder accepts the 64-bit decoder accepts with the same length, and the results agree modulo 2^32 |
| Varint.SmallIsAccepted32 | src/external/nanopb/pb_decode.c:204-231 | the 32-bit decoder accepts every encoding of a value below 2^32, however long, with that value |
| Varint.NegativeIsAccepted32 | src/external/nanopb/pb_decode.c:206-214 | it accepts every sign-extended negative 32-bit number |
| Varint.TenthByte | src/external/nanopb/pb_decode.c:253-254 | nine bytes never exceed 64 bits; ten do not exactly when the tenth is 0 or 1 |
| Varint.LowBits | src/external/nanopb/pb_decode.c:204-227 | bytes from the sixth on do not change the low 32 bits |
| Varint.AcceptedIsExact | src/external/nanopb/pb_decode.c:204-231 | what the 32-bit decoder accepts with a value below 2^31 denotes exactly that value, so no other bit was set |
| RoundTrip.VarintRoundTrip | src/external/nanopb/pb_decode.c:170-262 | every number below 2^64, written seven bits a byte, is read back by the 64-bit decoder and, below 2^32, by the 32-bit one, whatever follows |
| Stream.IStream.ReadByte | src/external/nanopb/pb_decode.c:124-140 | takes one byte, or fails on an empty stream without moving |
| Stream.IStream.Read | src/external/nanopb/pb_decode.c:81-122 | takes exactly count bytes, or fails without moving when fewer are left |
| Stream.IStream.SkipVarint | src/external/nanopb/pb_decode.c:265-274 | takes exactly one varint of any length |
| Stream.IStream.SkipString | src/external/nanopb/pb_decode.c:276-288 | takes a length and as many bytes |
| Stream.IStream.SkipField | src/external/nanopb/pb_decode.c:307-317 | takes exactly the extent of a value of this wire type; other wire types fail |
| Stream.IStream.DecodeTag | src/external/nanopb/pb_decode.c:290-305 | reads the key the wire holds |
| Stream.IStream.MakeStringSubstream | src/external/nanopb/pb_decode.c:361-374 | a substream over exactly the delimited bytes; the parent keeps the rest |
| Stream.IStream.CloseStringSubstream | src/external/nanopb/pb_decode.c:376-389 | however much of the substream was read, the parent continues just past it |
| Stream.NextByte | src/external/nanopb/pb_decode.c:199-229 | one more byte extends the accepted prefix or rules the varint out |
| Descriptor.FaithfulExactly | src/external/nanopb/pb.h:753-791 | within the asserted ranges a field is unpacked as it was packed if and only if it is no array in the one-word format and its size offset lies in 0 to 127 in the four- and eight-word formats |
| Descriptor.SizeOffsetLost | src/external/nanopb/pb.h:787-791 | size offsets 256 and -200 pass the assertions of the wide formats and are unpacked as 0 and 56 |
| Descriptor.PackedAlone | src/external/nanopb/pb_common.c:17-72 | reading the words of any of the four formats at any place gives back the field packed there |
| Descriptor.FormatsWrittenOut | src/external/nanopb/pb.h:753-769 | the words of a small and a large field in the four formats, in numbers |
| Descriptor.FlattenAt | src/external/nanopb/pb_common.c:142-150 | the words of field i are found at the sum of the sizes before it |
| Descriptor.Walk | src/external/nanopb/pb_common.c:156-193 | from begin, repeated next yields exactly the packed fields in order, for any mix of widths |
| Descriptor.FieldIter.constructor | src/external/nanopb/pb_common.c:156-164 | the cursor stands on the first field |
| Descriptor.FieldIter.LoadDescriptorValues | src/external/nanopb/pb_common.c:8-120 | loads the field the cursor stands on and the type of its submessage |
| Descriptor.FieldIter.AdvanceIterator | src/external/nanopb/pb_common.c:122-154 | moves to the next field or back to the first; the word, required-field and submessage indexes stay the sums over the fields before it, and none wraps at 16 bits |
| Descriptor.FieldIter.MoveNext | src/external/nanopb/pb_common.c:188-193 | false exactly when the cursor has come back to the first field |
| Descriptor.FieldIter.FieldIterFind | src/external/nanopb/pb_common.c:195-244 | from every cursor position: found if and only if some field has the tag and is no extension, or the current one has it; lands there, otherwise stays; always ends |
| Descriptor.FieldIter.Search | src/external/nanopb/pb_common.c:207-243 | the wrapping search visits every other field before it gives up |
| Descriptor.FieldIter.CheckField | src/external/nanopb/pb_common.c:223-237 | comparing the low six bits of the tag first loses nothing |
| Descriptor.SearchEnds | src/external/nanopb/pb_common.c:210-242 | when the search is back at its start no field matches, also when it skipped the fields with larger tags |
| Decoder.MessageDecoder.DecodeInner | src/external/nanopb/pb_decode.c:989-1151 | decoding a stream with packed descriptors computes exactly the specified message from defaults or into an existing one, or fails exactly when the specification does, and takes the whole stream; calls for submessages are nested at most half as deep as the stream is long, on success and on failure, also for types that contain themselves |
| Decoder.MessageDecoder.DecodeFields | src/external/nanopb/pb_decode.c:1015-1111 | the loop over records, with the bitmap of required fields seen; nesting at most half the length of the stream |
| Decoder.MessageDecoder.DecodeRecord | src/external/nanopb/pb_decode.c:1017-1110 | one turn of the loop handles exactly one record, wherever the cursor stood |
| Decoder.MessageDecoder.DecodeValue | src/external/nanopb/pb_decode.c:1041-1110 | a known field is decoded, an unknown one skipped, and the bit to mark is that of the required field |
| Decoder.MessageDecoder.DecodeStaticField | src/external/nanopb/pb_decode.c:466-554 | required, optional, repeated and union fields store what the specification says |
| Decoder.MessageDecoder.DecodeRepeatedField | src/external/nanopb/pb_decode.c:478-519 | an element or a packed run is appended; too many elements fail |
| Decoder.MessageDecoder.DecodePackedField | src/external/nanopb/pb_decode.c:479-508 | a packed run fills the array and leaves the parent just past it; bytes left over fail |
| Decoder.MessageDecoder.DecodeBasicField | src/external/nanopb/pb_decode.c:395-464 | a value is decoded exactly when its wire type is that of its data type |
| Decoder.MessageDecoder.DecSubmessage | src/external/nanopb/pb_decode.c:1586-1636 | the delimited bytes are decoded into the field, from defaults for a repeated one, and the parent continues just past them; one level is added to the nesting inside |
| Decoder.DecodeScalar | src/external/nanopb/pb_decode.c:395-464 | every scalar type gives the value and takes the bytes the specification says |
| Decoder.DecVarint | src/external/nanopb/pb_decode.c:1424-1494 | signed, unsigned and zigzag values are cast to the size of the field and rejected exactly when the cast changes them, which is when they do not fit |
| Decoder.CastKeepsFitting | src/external/nanopb/pb_decode.c:1432-1490 | a cast to 1, 2, 4 or 8 bytes, unsigned or signed, keeps a value if and only if the value fits |
| Decoder.DecodeSigned | src/external/nanopb/pb_decode.c:1451-1475 | a zigzag number, or the varint as a signed number of 64 bits, of 32 for smaller fields |
| Decoder.DecodeSvarint | src/external/nanopb/pb_decode.c:1355-1367 | the zigzag number of the varint |
| Decoder.DecBytes | src/external/nanopb/pb_decode.c:1496-1584 | length-prefixed bytes and strings, rejected when they do not fit |
| Decoder.DecodePacked | src/external/nanopb/pb_decode.c:491-503 | elements until the bytes or the room run out |
| Decoder.CheckRequired | src/external/nanopb/pb_decode.c:1120-1148 | compares whole words and then the remaining bits |
| Decoder.WordsSayAllRequired | src/external/nanopb/pb_decode.c:1102-1148 | comparing words is the same as asking whether each of the first 64 required fields occurred on the wire |
| Decoder.SeeField | src/external/nanopb/pb_decode.c:1102-1107 | marking a field keeps the bitmap exact and never sets a bit at or above the number of required fields |
| Decoder.RequiredIsOnto | src/external/nanopb/pb_common.c:142-152 | every number below the count is that of a required field |
| DecodeLaws.OneTakesRecord | src/external/nanopb/pb_decode.c:1015-1111 | decoding a field takes exactly the record that skipping it would |
| DecodeLaws.OneOfPrefix | src/external/nanopb/pb_decode.c:1015-1111 | one complete record is decoded, or rejected, the same whatever follows it |
| DecodeLaws.FieldsFail | src/external/nanopb/pb_decode.c:1015-1111 | complete records that cannot all be decoded cannot be decoded with more after them |
| DecodeLaws.FieldsConcat | src/external/nanopb/pb_decode.c:1015-1111 | decoding a concatenation is decoding its parts one after the other |
| DecodeLaws.MergeLaw | src/external/nanopb/pb_decode.c:989-1111 | when a decodes, decoding a then b without initialisation equals decoding the concatenation if and only if b repeats the required fields or the concatenation fails anyway |
| DecodeLaws.MergeLawWithoutRequired | src/external/nanopb/pb_decode.c:989-1111 | without required fields the two always agree, status included |
| DecodeLaws.MergeMissesRequired | src/external/nanopb/pb_decode.c:1120-1148 | with a required field the two can differ: the empty string does not repeat it |
| DecodeLaws.UnknownFieldChangesNothing | src/external/nanopb/pb_decode.c:1041-1076 | a complete record with an unknown tag put between complete records changes neither the message nor the status, whether decoding succeeds or fails |
| UnionLaw.LastMemberWins | src/external/nanopb/pb_decode.c:521-549 | after a decode a union of submessages holds the member whose record came last, unset if there was none, and its submessage is what the concatenated bodies of the final run of that member decode to from defaults |
| UnionLaw.FinalRunIsOfLastMember | src/external/nanopb/pb_decode.c:547 | the final run is that of the last record of any member |
| UnionLaw.UnionStep | src/external/nanopb/pb_decode.c:521-549 | one more record continues the run or starts a new one from defaults |
| MetricsRecord.LastRecordWins | src/external/nanopb/monado_metrics.pb.h:232-238 | the six-member record of the metrics stream is such a union |
| MetricsRecord.RecordIsUnion | src/external/nanopb/monado_metrics.pb.h:232-250 | its members are exactly the tags 1 to 6 |
| RecordLaws.FieldsAreReplayed | src/external/nanopb/pb_decode.c:1015-1111 | decoding complete records is decoding them one by one, failure included |
| RecordLaws.LastValueWins | src/external/nanopb/pb_decode.c:466-476 | a singular scalar field with its own tag and slot holds the value of its last record, and what it held before when there is none |
| RecordLaws.SubmessagesMerge | src/external/nanopb/pb_decode.c:1616-1630 | a singular submessage holds what the contents of all its records, laid end to end, decode to from what was there |
| RecordLaws.RepeatedInOrder | src/external/nanopb/pb_decode.c:478-519 | a repeated field holds the values of its records in the order of the wire, packed runs flattened, at most as many as there is room for |
| RecordLaws.UnionNamesLast | src/external/nanopb/pb_decode.c:521-549 | any union names the member written last and, if that is a scalar, holds its value |
| RecordLaws.RequiredOccur | src/external/nanopb/pb_decode.c:1102-1148 | a string whose records decode is accepted if and only if each of the first 64 required fields occurs among them |
| RoundTrip.KeyRoundTrip | src/external/nanopb/pb_decode.c:290-305 | a key is eight times the tag plus the wire type |
| RoundTrip.NumberRoundTrip | src/external/nanopb/pb_decode.c:1345-1494 | bool, signed, unsigned, zigzag and fixed numbers a field can hold are read back, whatever follows |
| RoundTrip.FixedRoundTrip | src/external/nanopb/pb_decode.c:1369-1417 | four and eight bytes, least significant first, are read back |
| RoundTrip.BoolIsAnyBit | src/external/nanopb/pb_decode.c:1345-1353 | a bool is false exactly when no byte of its varint has any of its low seven bits set |
| RoundTrip.BytesRoundTrip | src/external/nanopb/pb_decode.c:1496-1659 | bytes are read back exactly when the field has room for them and their count or terminator; empty fixed-length bytes are zeros |
| RoundTrip.AcceptedHasRoom | src/external/nanopb/pb_decode.c:1505-1571 | accepted bytes leave room for their count and accepted strings for their terminator |
| RoundTrip.NumberIsGiven | src/external/nanopb/pb_decode.c:466-554 | the key and number of a field with room store it, append it or put it into the union under its tag |
| RoundTrip.BytesAreGiven | src/external/nanopb/pb_decode.c:466-554 | so do key and bytes |
| RoundTrip.FullArrayFails | src/external/nanopb/pb_decode.c:515-516 | a full array takes no further number |
| RoundTrip.RunIsGiven | src/external/nanopb/pb_decode.c:479-508 | a packed run appends all its numbers in order |
| RoundTrip.SubmessageIsGiven | src/external/nanopb/pb_decode.c:1586-1636 | the bytes of a submessage are decoded into what was there, or defaults for an array element or another union member, and the field gets the result; it fails exactly when they do not decode |
| NestingLaw.NestingIsBounded | src/external/nanopb/pb_decode.c:1586-1636 | a message decoded from defaults is itself nested at most half as deep as the input is long |
| BitStream.Reader.ReadBits | src/external/bcdec/bcdec.h:366-377 | any sequence of reads of 1 to 31 bits returns the successive fields of the integer low + 2^64 * high |
| BitStream.Shift | src/external/bcdec/bcdec.h:371-374 | shifting the two words, with the low bits of high or-ed into the top of low, shifts that integer |
| BitStream.FieldsJoin | src/external/bcdec/bcdec.h:366-377 | reading m bits and then n gives the two parts of reading m + n |
| BitStream.OrIsSum | src/external/bcdec/bcdec.h:373 | or-ing numbers on disjoint bits adds them |
| Bc7.DecodeBlock | src/external/bcdec/bcdec.h:1079-1430 | for every block of a valid mode exactly 128 bits are read and the bytes afterwards are those before with the 16 texels of the format stored one after the other, at any pitch; the fields of the format are given at closed-form positions; a reserved mode gives transparent black |
| Bc7.ReadMode | src/external/bcdec/bcdec.h:1243 | the mode is the number of zero bits before the first one bit, 8 at most |
| Bc7.ReadHeader | src/external/bcdec/bcdec.h:1260-1278 | partition, rotation and index selection are the fields of the mode's layout |
| Bc7.DecodeEndpoints | src/external/bcdec/bcdec.h:1280-1353 | reading channel by channel, inserting p-bits and widening gives every endpoint of the layout |
| Bc7.ReadPBits | src/external/bcdec/bcdec.h:1294-1325 | unique and shared p-bits end up below the endpoints they belong to |
| Bc7.WidenEndpoint | src/external/bcdec/bcdec.h:1327-1345 | shift and replicate give the widened value in every precision |
| Bc7.ReadIndices | src/external/bcdec/bcdec.h:1362-1376 | the colour indices are those at the layout's positions, with fix-ups a bit shorter |
| Bc7.DecodeTexel | src/external/bcdec/bcdec.h:1378-1426 | a texel interpolates the endpoints of its subset by the index selected for each channel, and is rotated |
| Bc7.DecodeTexels | src/external/bcdec/bcdec.h:1378-1430 | the second pass stores the 16 texels in order, at any pitch, and reads the second indices to their end |
| Bc7.PaintedLast | src/external/bcdec/bcdec.h:1420-1428 | a texel that no later one overlaps is there when all have been stored |
| Bc7.PaintedElsewhere | src/external/bcdec/bcdec.h:1420-1428 | bytes outside the texels do not change |
| Bc7.AllPainted | src/external/bcdec/bcdec.h:1420-1428 | with a pitch of at least 16 all texels are there |
| Bc7.PlaceIs | src/external/bcdec/bcdec.h:1420-1428 | texel t goes to line t / 4, column t % 4, four bytes each |
| Bc7Laws.SecondIndexesDoNotMatter | src/external/bcdec/bcdec.h:1390-1408 | two blocks with two indexes that agree up to the second ones have the same colour without index selection, the same alpha with it |
| Bc7Laws.FirstIndexesDoNotMatter | src/external/bcdec/bcdec.h:1390-1408 | two that differ in the first indexes only have the same alpha without selection, the same colour with it |
| Bc7Laws.IndexesReachEndpoints | src/external/bcdec/bcdec.h:1381-1408 | at the first index a channel is the first endpoint of the texel's subset, at the last the second |
| Bc7Laws.TexelReachesEndpoints | src/external/bcdec/bcdec.h:1410-1425 | without rotation red, green, blue and alpha are those channels |
| Bc7Laws.RotationExchanges | src/external/bcdec/bcdec.h:1410-1420 | rotation 1, 2 or 3 exchanges alpha with red, green or blue, and nothing else |
| Bc7Laws.OpaqueWithoutAlpha | src/external/bcdec/bcdec.h:1347-1353 | a mode without alpha bits is opaque |
| Bc7Laws.WeightsAreNearest | src/external/bcdec/bcdec.h:1223-1225 | a weight is the whole number nearest to its share of 64 |
| Bc7Laws.InterpolateIsNearest | src/external/bcdec/bcdec.h:498-500 | an interpolated value is within one half of the exact mean |
| Bc7Laws.EndpointKeepsStored | src/external/bcdec/bcdec.h:1327-1345 | the high bits of an endpoint are the stored ones with their p-bit |
| Bc7Laws.PBitIsLowest | src/external/bcdec/bcdec.h:1304-1325 | the p-bit of an endpoint, in mode 1 of its pair, is the lowest bit of its stored channels |
| Bc7Laws.ModeIsLowestBit | src/external/bcdec/bcdec.h:1243 | the mode is the position of the lowest bit set, 8 when none of the first eight is |
| Bc7Laws.PartitionOf | src/external/bcdec/bcdec.h:1260-1268 | which bits number the partition, and in which table |
| Bc7Laws.RotationPosition | src/external/bcdec/bcdec.h:1270-1278 | where the rotation and index selection bits are |
| Bc7Laws.RedPosition | src/external/bcdec/bcdec.h:1280-1286 | the first red bit of every mode |
| Bc7Laws.GreenPosition | src/external/bcdec/bcdec.h:1280-1286 | the first green bit of every mode |
| Bc7Laws.BluePosition | src/external/bcdec/bcdec.h:1280-1286 | the first blue bit of every mode |
| Bc7Laws.AlphaPosition | src/external/bcdec/bcdec.h:1287-1292 | the first alpha bit of every mode |
| Bc7Laws.PBitsPosition | src/external/bcdec/bcdec.h:1294-1325 | the first p-bit of every mode |
| Bc7Laws.NextColor | src/external/bcdec/bcdec.h:1280-1286 | endpoints of a colour channel follow one another |
| Bc7Laws.NextAlpha | src/external/bcdec/bcdec.h:1287-1292 | so do those of alpha |
| Bc7Laws.SecondIndexPosition | src/external/bcdec/bcdec.h:1378-1389 | the first bit of the second indexes of modes 4 and 5 |
| Bc7Laws.IndexBitsOf | src/external/bcdec/bcdec.h:1355-1360 | the width of the indexes of every mode |
| Bc7Layout.FieldsFillBlock | src/external/bcdec/bcdec.h:1080-1376 | header, endpoints, p-bits and indices of every mode and partition add up to 128 bits |
| Bc7Layout.WidenIsFaithful | src/external/bcdec/bcdec.h:1327-1345 | widening keeps the order, maps lowest and highest to 0 and 255, and the original is its high bits |
| Bc7Layout.InterpolateBetween | src/external/bcdec/bcdec.h:498-500 | an interpolated value lies between its two ends and reaches them |
| Bc7Layout.ChannelBetween | src/external/bcdec/bcdec.h:1390-1408 | each channel of each texel lies between the two endpoints of its subset |
| Bc7Layout.TexelFits | src/external/bcdec/bcdec.h:1410-1425 | every stored channel is in 0 to 255, rotated or not |
| Partitions.PartitionSets | src/external/bcdec/bcdec.h:1088-1221 | every one of the 128 partitions has entries of its subsets only, begins with a fix-up of subset 0 and has as many fix-ups as subsets |

## Left out

- Hungarian.Solve: for matrices with several rows and several columns, that the answer is exactly the cheapest is proved for entries on a grid and for an isolated optimum only; with other near ties it depends on which zeros the search meets, and the bound of min(rows, cols) * DBL_EPSILON is what is claimed.
- Rounding of floating-point sums, allocation, `ONE_INDEXING` and the warning on negative entries in the solver; `DBL_MAX` as the start of a minimum is modelled as no value seen yet.
- RunContext.RunContext.RunTest: failures, exceptions, `aborting`, section filters, generator trackers and reporters are not modelled, so the loop in `close` that closes open generators has nothing to do; sections with the same name and line beside each other are excluded.
- RunContext.RunContext.StartRun: the current tracker is not cleared; every cycle sets it before it is used.
- Trackers are found by their path instead of by pointer, so sharing between trackers is not captured.
- Decoder.MessageDecoder.DecodeInner: callbacks, pointer fields and allocation, extensions, fixed-count arrays, default values other than zero, UTF-8 validation and the flags for delimited and null-terminated input are not modelled.
- Decoder.MessageDecoder.DecodeStaticField: the message is returned instead of written through pointers, so what a failed decode leaves behind is not captured; absent slots stand for defaults.
- Descriptor.FieldIter.LoadDescriptorValues: `pField`, `pSize` and `pData` are not formed; the offsets they are computed from are part of the field. `pb_size_t` has 16 bits.
- Shifts, masks and ors on disjoint bits are written as multiplication, remainder and sum in the descriptors and varints; floating-point fields are their bit patterns.
- The Protocol Buffers encoder: the repository has it in a file that is not part of this model.
- Bc7.DecodeBlock: the alpha of endpoints in modes without alpha bits is any number before it is set to 255.
- Partitions.PartitionSets: which texel belongs to which subset is in the table as written; only the form of its rows is proved.
- The BC1 to BC6 decoders: tables and bit shuffles without a property beyond their own text.
- Error strings, user interface, scripts and foreign-function bindings of the repository.
