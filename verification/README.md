# The Fast-CDR codec and the `Employee` topic type

This project models the encoder, decoder, size calculator and growable buffer of Fast-CDR, which implements the
XCDRv1 and XCDRv2 encodings of OMG DDS-XTypes 1.3 (sections 7.4.1 to 7.4.3), and the generated support code of the
`Employee` topic type that uses it. Nothing was executed.

## How the model is built

A value is a tree of primitives of 1, 2, 4 or 8 bytes, booleans, strings, wide strings, sequences of primitives,
sequences of anything else, and structs that are final, appendable or mutable with members that may be optional (`Schema`). What a
writer leaves in the buffer is a function of the value, the version, the byte order and the header selection
(`Encoding.Enc`): a sequence of cells, each a byte or a gap. Gaps are padding, which the source skips and never writes,
so every statement about bytes is a statement about the cells that are not gaps (`Holds`). What a reader makes of
arbitrary bytes is a second function (`Decoding.Decode`), with the reader's functor as a lookup in its member list.

The source works by changing a `Cdr` object step by step, and so does the model: `Cdrs.Cdr` has the source's fields, and
its methods align, test for room, copy, rewind, patch headers and move bodies. `Serializer` and `Deserializer` drive it
the way generated code does, with the source's loops. Their contracts say that the object ends up exactly where the two
functions say: `SerializeValue` lays down `Enc` in a given block or in a buffer that grows on the way, `DeserializeValue`
returns `Decode` on any bytes. `Calculators.Calculator` does the same for `CdrSizeCalculator`.

`Streams` ties the layout to byte streams that the codec's own test suite expects. `Wire`, `Readings` and `Charges` tie
the three functions to the numbers of the format, written out: what stands on the wire, what a reader makes of bytes that
no writer of its type leaves, and what the calculator charges.

The functions are then related to each other, which is where the results are.

* **Reading back.** For all values of all types in scope, both versions and every header form, a reader obtains its own
  view of the written value and stops where the writer stopped, with the writer's origin (`ReadValue`). The view covers
  schema evolution: missing and surplus members of appendable structs, any subset and any order of members of mutable
  ones. With the writer's own type the value comes back unchanged if and only if no string holds a zero byte and every
  wide character is a number of 16 bits other than zero (`RoundTripIff`), because strings are written up to the first
  zero and wide characters lose what is above. Readers that meet an unknown must-understand member, at any depth, fail,
  and no others do (`AcceptedIff`). In XCDRv2 no reader at all gets past such a member, whatever its other members are
  (`RefusedByAny`).
* **Growing on the way.** A DHEADER is filled in when its struct or sequence is complete, at a position saved before any
  number of reallocations. It holds the exact extent nevertheless, at any depth and from any capacity, an empty buffer
  included (`SerializeValue`, `SerializeDelimited2`, `SerializeSeq2`).
* **Relocation.** Moving a finished body to make its header longer or shorter leaves a body that is laid out correctly
  at its new place (`EncShift`), so that the two automatic header selections leave the same bytes, except for
  absent optional members of XCDRv1 plain structs, whose header is never exchanged (`AutoSelections`, an equivalence).
* **Sizes.** The XCDRv2 calculator is off by exactly `Drift` (`SizeOff2`), which is zero without optional members in
  mutable structs and without boolean sequences as such members (`SizeExact2`), 4 for a boolean sequence of any length but 0
  and 4 (`BoolSeqDrift`), and minus 4 for an optional of 3, 5, 6 or 7 bytes without a length of its own (`OptionalDrift`,
  with a concrete value in `Shortfall`), or for a header that could be short where long ones are insisted on
  (`LongOnlyDrift`). The XCDRv1 calculator falls short by exactly `Excess` (`SizeOff1`), which is never negative and zero
  if and only if every header is as short as identifier and body allow and no mutable struct's member is without a body
  (`LeanIff`). `AbsentShortfall`, `PresentShortfall` and `HollowShortfall` are values for which it is not.
* **From one host to another.** `Transfer` puts everything together: encapsulation and value written on a host of either
  byte order, read on a host of either byte order, give the reader's view. A payload of
  the calculated size has the room the encoder needs if and only if the drift is not negative (`PayloadSuffices2`) or, in
  XCDRv1, every header is lean (`PayloadSuffices1`); `Publish` then writes the message into it. `Exchange` does the round
  trip for `Employee` and every text.

## What the proofs brought to light

* The cached size survives only two kinds of access: those of one byte, and the reads of a wide string, which set it to
  2 right behind the count and let the first character take the shortcut. `Cdr.Valid` keeps that a cached size of more
  than 1 divides the position, across saved and restored states too, so that `Alignment` is the true distance for all
  four sizes.
* `set_state` restores `swap_bytes_` but not `endianness_`. The two agree afterwards if and only if the saved exchange is
  the one the chosen order calls for (`SetState`; `RestoredOrder` is a run after which they do not). A `read_encapsulation`
  that fails inherits this: they agree if and only if the encapsulation announced the order already in force
  (`ReadEncapsulation`, `MisreadOrder`).
* A wide string is tested for room with its count doubled in 32 bits. A count of 2^31 and more may pass that test; the
  read then fails at the end of the buffer, as it must, but leaves the state changed. A failure leaves no trace if and
  only if that is not what happened (`ReadWString`, with a run in `OverrunState`). A count of exactly 2^31 is
  read as the empty string (`WideWraps`).
* The guards that make a header longer subtract unsigned numbers: they refuse if and only if exactly one byte is missing,
  and so they are right if and only if no more are (`GuardRight`). A payload of the size calculated for `Shortfall`'s value
  is 4 bytes too small, and the guard passes (`ShortPayload`).
* A member of no bytes is refused by every reader in XCDRv2 mutable structs (`HollowMember2`), taken for an absent one as
  an optional of an XCDRv1 plain struct (`HollowOptional1`), and read back in XCDRv1 mutable structs, where the calculator
  charges no header for it.
* When the members of an appendable struct overshoot the extent its DHEADER announces, the distance to the end wraps to a
  huge one. A user's buffer stays as it is and so does the cursor; a buffer of the codec's own is cut short by as many
  bytes, and the cursor goes back (`JumpTo`).
* An XCDRv1 member header starts an alignment origin that is never popped. A reader that skips a member ends up with the
  writer's origin if and only if no header was written inside the member (`SkippedOrigin1`). `SkippingDrifts1` is a value
  that a reader without that member cannot read.
* An XCDRv1 sequence of non-primitives is refused when it has more elements than bytes lie behind its count, which
  happens to sequences of empty structs (`SequenceAccepted1`, an equivalence; `HollowRefused1`, a value).
* With short headers by default the encoder never needs more room than it writes (`PeakExact`). With long ones it does,
  because headers are allocated before they can be shortened; `Peak` is the high-water mark.

## Model

| member | source | states |
|---|---|---|
| `Layout.MaskedPadIsPad` | Fast-CDR/src/cpp/Cdr.cpp:42-48 | the masked formula, on bit vectors, is the distance to the next multiple, for every alignment |
| `Layout.CachedPadIsPad` | Fast-CDR/include/fastcdr/Cdr.h:3041-3045 | in every state whose cached size divides the position, the shortcut gives the answer of the full formula |
| `Layout.BytesRoundTrip` | Fast-CDR/src/cpp/Cdr.cpp:520-553 | a number in range is recovered from its bytes in either order |
| `Layout.GuardRight` | Fast-CDR/src/cpp/Cdr.cpp:2650-2669 | in the arithmetic of `size_t` the guard of a header made longer passes exactly if not exactly one byte is missing, and so is right exactly if no more are |
| `Schema.CText` | Fast-CDR/src/cpp/Cdr.cpp:780-790 | the part of a string, wide or not, that is written is its longest prefix without a zero, the whole string exactly if it has none |
| `Schema.NarrowIff` | Fast-CDR/src/cpp/Cdr.cpp:819-852 | a wide string is what is read back of it if and only if every character is a number of 16 bits other than zero |
| `EncodingFacts.EncShift` | Fast-CDR/src/cpp/Cdr.cpp:2637-2681 | for every XCDRv2 value, a body moved by 4 is laid out as if it had been written there |
| `EncodingFacts.EncHollow` | Fast-CDR/src/cpp/Cdr.cpp:3122-3193 | a value takes no bytes exactly when it is a plain struct of nothing but such structs |
| `EncodingFacts.NextIntSound` | Fast-CDR/src/cpp/Cdr.cpp:50-71 | whenever the flag says that the body's length can serve as NEXTINT, the body opens with a number n and is 4 + n times the unit of the flag's length code long |
| `EncodingFacts.EncOneOrigin` | Fast-CDR/src/cpp/Cdr.cpp:2738-2806 | an XCDRv1 value leaves the origin alone exactly when no member header is written in it |
| `RoundTrip.ReadHeaded2` | Fast-CDR/src/cpp/Cdr.cpp:3072-3120 | the XCDRv2 header decoder recovers identifier, flag and exact body size from all three header forms and leaves a shared NEXTINT to the body |
| `RoundTrip.ReadHeader1` | Fast-CDR/src/cpp/Cdr.cpp:2538-2587 | the XCDRv1 header decoder recovers identifier, flag and size from short and long headers and starts the new origin |
| `RoundTrip.ReadSentinel` | Fast-CDR/src/cpp/Cdr.cpp:2575-2584 | the sentinel ends the member loop |
| `Theorem.ReadValue` | Fast-CDR/src/cpp/Cdr.cpp:3195-3334 | for all writable values, all reader types that go with them, both versions and every header form, decoding the encoding gives the reader's view of the value, with cursor and origin where the writer's were |
| `Theorem.StoreAllIsView` | Fast-CDR/src/cpp/Cdr.cpp:3263-3301 | storing members one by one as their headers come along gives each of the reader's members the value written under its identifier, or its default, in whatever order they were written |
| `Readings.DefaultCleared` | Fast-CDR/src/cpp/Cdr.cpp:3302-3312 | for every type, what a member that was not written holds has that type, every number in it is 0, every string and sequence empty and every optional absent |
| `Readings.ClearedOnce` | Fast-CDR/src/cpp/Cdr.cpp:3302-3312 | there is no other such value |
| `Readings.DefaultItemsCleared` | Fast-CDR/include/fastcdr/Cdr.h:1855-1890 | the same of every element that was not written |
| `Readings.FewerWritten` | Fast-CDR/test/xcdr/appendable.cpp:511-610 | from the bytes the test expects, a reader with a third member gets 0 for it, in both versions and byte orders |
| `Theorem.ReadDelimited` | Fast-CDR/src/cpp/Cdr.cpp:3302-3316 | a reader of an appendable struct with more or fewer members gets the shared ones and lands at the end of the DHEADER's extent |
| `Theorem.ReadMutable2` | Fast-CDR/src/cpp/Cdr.cpp:3263-3301 | a reader of a mutable struct with any members gets those it knows, skips the others and ends where the DHEADER says |
| `Theorem.ReadMutable1` | Fast-CDR/src/cpp/Cdr.cpp:3204-3230 | the same up to the sentinel, where skipped members leave the origin alone |
| `Results.RoundTripIff` | Fast-CDR/src/cpp/Cdr.cpp:2932-3334 | with the writer's own type every value of both versions is accepted with the writer's cursor and origin, and comes back unchanged if and only if no string in it holds a zero byte and every wide character is a number of 16 bits other than zero |
| `Refusal.AcceptedIff` | Fast-CDR/src/cpp/Cdr.cpp:3273-3286 | among readers that differ in a tolerable way, exactly those that meet no unknown must-understand member at any depth accept the value |
| `Refusal.RefusedByAny` | Fast-CDR/src/cpp/Cdr.cpp:3263-3301 | in XCDRv2 a reader of a mutable struct with any members of any types refuses it if a present must-understand member is not among them |
| `Tiling.MutableTiles` | Fast-CDR/src/cpp/Cdr.cpp:3265-3298 | whatever the bytes, an accepted mutable struct is tiled without gap or overlap by members whose headers announce their sizes, at least 5 bytes each, up to the end the DHEADER announces |
| `Selections.AutoSelections` | Fast-CDR/src/cpp/Cdr.cpp:2975-3070 | both automatic header selections leave the same cells and position if and only if the version is 2 or no short-identifier optional member of a plain struct is absent |
| `Selections.BlankDiffers` | Fast-CDR/src/cpp/Cdr.cpp:2808-2869 | an absent member for which they do not: 4 bytes with short headers first, 12 with long ones |
| `Streams.ExpectedStream1` | Fast-CDR/test/xcdr/mutable.cpp:309-338 | in both byte orders and for every value of the members, the cells of the test's struct are the bytes the test expects, identifiers, sizes, extended header, padding and sentinel included |
| `Streams.ExpectedStream2` | Fast-CDR/test/xcdr/mutable.cpp:339-362 | the same for XCDRv2, with DHEADER and length codes |
| `Wire.CountShared` | Fast-CDR/include/fastcdr/Cdr.h:803-828 | for every sequence of 1-, 4- or 8-byte numbers, a mutable struct with it as its member is a DHEADER, a word with 0x50, 0x60 or 0x70 on top, the count and the elements, 12 bytes and those of the elements |
| `Wire.CountNotShared` | Fast-CDR/include/fastcdr/Cdr.h:3562-3566 | a sequence of 2-byte numbers shares nothing: 0x20 or 0x30 on top for none or two, otherwise 0x40 and a NEXTINT |
| `Wire.NumberMember` | Fast-CDR/src/cpp/Cdr.cpp:2989-3037 | numbers of 1, 2, 4 and 8 bytes have 0x00 to 0x30 on top, 0x80 more if they must be understood |
| `Wire.LengthShared` | Fast-CDR/src/cpp/Cdr.cpp:3037-3063 | strings, other sequences and delimited structs share their length under 0x50 |
| `Wire.LengthNotShared` | Fast-CDR/src/cpp/Cdr.cpp:2989-3010 | wide strings and final structs do not: 0x40 and a NEXTINT of exactly their size |
| `Wire.HeaderLength1` | Fast-CDR/src/cpp/Cdr.cpp:2683-2806 | under an automatic selection an XCDRv1 header takes 4 bytes if the identifier is at most 0x3F00 and the body at most 0xFFFF bytes, otherwise 12 |
| `Wire.AbsentLength1` | Fast-CDR/src/cpp/Cdr.cpp:2808-2862 | the header of an absent optional takes 4 bytes up to the identifier 0x3F00 if headers start out short, otherwise 12 |
| `Wire.MustCells1` | Fast-CDR/src/cpp/Cdr.cpp:2446-2459 | an XCDRv1 must-understand member has 0x40 on top of its identifier |
| `Wire.StringCells` | Fast-CDR/src/cpp/Cdr.cpp:780-817 | a string of two bytes is the number 3, the bytes and a zero |
| `Wire.WideCells` | Fast-CDR/src/cpp/Cdr.cpp:819-852 | a wide string of one character is the number 1 and two bytes |
| `Wire.SequenceCells` | Fast-CDR/include/fastcdr/Cdr.h:773-795 | a sequence of one string of one byte, with its extent 10 in front in XCDRv2 |
| `Wire.PlainCells` | Fast-CDR/test/xcdr/appendable.cpp:511-543 | an unsigned long and an unsigned short, with the DHEADER 6 in front where an XCDRv2 struct is appendable |
| `Wire.LongAlignment` | Fast-CDR/src/cpp/Cdr.cpp:555-592 | an 8-byte number behind an octet has 7 bytes of padding in XCDRv1, 3 in XCDRv2 |
| `Wire.OptionalCells` | Fast-CDR/include/fastcdr/Cdr.h:2808-2822 | an absent and a present optional are the bytes 0 and 1 and the value in XCDRv2, two headers and the value in XCDRv1 |
| `Wire.ShortOnly2` | Fast-CDR/src/cpp/Cdr.cpp:2999-3063 | a selection restricted to short headers permits exactly the values of 1, 2, 4 and 8 bytes without a length of their own |
| `Wire.ShortOnly1` | Fast-CDR/src/cpp/Cdr.cpp:2683-2806 | in XCDRv1 exactly identifiers up to 0x3F00 and bodies up to 0xFFFF bytes |
| `Limits.SequenceAccepted1` | Fast-CDR/include/fastcdr/Cdr.h:1890-1920 | an XCDRv1 sequence of non-primitives is read back exactly when as many bytes as elements lie behind its count, and refused otherwise |
| `Limits.HollowRefused1` | Fast-CDR/include/fastcdr/Cdr.h:1890-1920 | a sequence of one empty struct at the end of the buffer is written and refused |
| `Limits.HollowOptional1` | Fast-CDR/include/fastcdr/Cdr.h:2731-2756 | an XCDRv1 optional of no bytes in a plain struct is read as absent |
| `Limits.HollowMember2` | Fast-CDR/src/cpp/Cdr.cpp:3265-3298 | an XCDRv2 member of no bytes in a mutable struct is refused by every reader |
| `Readings.BooleanRead` | Fast-CDR/src/cpp/Cdr.cpp:1569-1597 | a byte is read as a boolean if and only if it is 0 or 1 |
| `Readings.StringRead` | Fast-CDR/src/cpp/Cdr.cpp:1658-1687 | a string without a zero at its end is read whole, one zero at its end is dropped, whatever else is in it |
| `Readings.WideRead` | Fast-CDR/src/cpp/Cdr.cpp:1689-1720 | the same for a wide string |
| `Readings.NoString` | Fast-CDR/src/cpp/Cdr.cpp:1658-1720 | a count of 0 is the empty string |
| `Readings.WideWraps` | Fast-CDR/src/cpp/Cdr.cpp:1689-1702 | a count of 2^31 wide characters is the empty string |
| `Readings.HeadersRefused1` | Fast-CDR/src/cpp/Cdr.cpp:2555-2584 | an extended header that does not announce 8 bytes and a sentinel that announces any are refused |
| `Readings.NextIntWraps` | Fast-CDR/src/cpp/Cdr.cpp:3072-3120 | a shared NEXTINT is multiplied and added to in 32 bits |
| `Readings.SentinelIsAbsent` | Fast-CDR/include/fastcdr/Cdr.h:2731-2756 | a sentinel in place of an optional member's header is an absent member |
| `Readings.SizeRefused1` | Fast-CDR/src/cpp/Cdr.cpp:3223-3228 | a member that is shorter than its XCDRv1 header announces is refused |
| `Readings.ExtentDecides` | Fast-CDR/include/fastcdr/Cdr.h:1855-1890 | two octets in an extent of 6, 5, 4 or any other number of bytes: both, one and a 0, two zeros, or a failure |
| `Readings.ExtentOfNone` | Fast-CDR/include/fastcdr/Cdr.h:1855-1890 | the extent of an empty sequence is not looked at |
| `Readings.ExtentSkipped` | Fast-CDR/src/cpp/Cdr.cpp:3302-3316 | what is left of an extent is skipped if the buffer reaches that far, otherwise not at all |
| `Readings.ExtentOvershot` | Fast-CDR/src/cpp/Cdr.cpp:3302-3316 | a member read beyond its extent is kept, and the cursor stays behind it |
| `Limits.SkippedOrigin1` | Fast-CDR/src/cpp/Cdr.cpp:3206-3229 | a reader that skips an XCDRv1 member ends with the writer's cursor and origin if and only if no header was written inside it |
| `Limits.SkippedOrigin2` | Fast-CDR/src/cpp/Cdr.cpp:3274-3286 | in XCDRv2 it always does |
| `Limits.SkippingDrifts1` | Fast-CDR/src/cpp/Cdr.cpp:3195-3244 | a value whose encoding a reader without one of its members fails to read, because of that |
| `SizeFacts.SizeOff2` | Fast-CDR/include/fastcdr/CdrSizeCalculator.hpp:1141-1281 | for every XCDRv2 value without zeros in its strings and every header selection the calculated size is the number of bytes written plus `Drift`, a sum over its mutable structs' members |
| `SizeFacts.SizeExact2` | Fast-CDR/include/fastcdr/CdrSizeCalculator.hpp:1141-1206 | with no optional, no boolean sequence and no flag left over by an optional in a mutable struct, the calculated size is the number of bytes written, unless long headers are insisted on |
| `SizeFacts.BoolSeqDrift` | Fast-CDR/include/fastcdr/CdrSizeCalculator.hpp:562-571 | a boolean sequence as a mutable struct's member is charged 4 bytes too many unless it has 0 or 4 elements |
| `SizeFacts.OptionalDrift` | Fast-CDR/include/fastcdr/CdrSizeCalculator.hpp:1246-1263 | an optional member of a mutable struct without a length of its own is charged 4 bytes too few exactly at 3, 5, 6 and 7 bytes |
| `SizeFacts.LongOnlyDrift` | Fast-CDR/src/cpp/Cdr.cpp:2975-3070 | if long headers are insisted on, a member without a length of its own is charged 4 bytes too few exactly at 1, 2, 4 and 8 bytes |
| `SizeFacts.Shortfall` | Fast-CDR/include/fastcdr/CdrSizeCalculator.hpp:1246-1263 | a mutable struct for which the calculated size is 4 bytes too small |
| `SizeFacts.SizeOff1` | Fast-CDR/include/fastcdr/CdrSizeCalculator.hpp:1141-1281 | for every XCDRv1 value without zeros in its strings and without empty sequences of 8-byte elements, and every header selection, the calculated size is the number of bytes written less `Excess`, a sum over all headers of what is spent on them less what is charged |
| `SizeFacts.LeanIff` | Fast-CDR/include/fastcdr/CdrSizeCalculator.hpp:1177-1189 | `Excess` is never negative, and zero if and only if no header is long by insistence that identifier and body size would let be short, none is long for an absent short identifier, and no mutable struct's member has no bytes |
| `SizeFacts.SizeBound1` | Fast-CDR/include/fastcdr/CdrSizeCalculator.hpp:1141-1281 | for every XCDRv1 value whose headers are lean, optional members included, the calculated size is at least the number of bytes written |
| `SizeFacts.SizeExact1` | Fast-CDR/include/fastcdr/CdrSizeCalculator.hpp:1141-1281 | without zeros in strings and empty sequences of 8-byte elements it is never more, and it is that number if and only if every header is lean |
| `Charges.EmptyLongs` | Fast-CDR/include/fastcdr/CdrSizeCalculator.hpp:968-977 | at every position: an empty sequence of 8-byte elements that starts at a multiple of 8 is charged 8 bytes in XCDRv1 and moves the position by 8, where 4 are written; 4 above one, and in XCDRv2, both are 4 |
| `Charges.EmptyThenLong` | Fast-CDR/include/fastcdr/CdrSizeCalculator.hpp:968-977 | an 8-byte number behind it makes up for that: 16 bytes both |
| `Charges.StringCharge` | Fast-CDR/include/fastcdr/CdrSizeCalculator.hpp:443-475 | strings are charged 5 bytes more than their length, zeros in them included, wide ones 4 more than twice theirs |
| `Charges.FlagCharge` | Fast-CDR/include/fastcdr/CdrSizeCalculator.hpp:443-571 | the calculator's flag after every kind of value |
| `Charges.HeaderCharge1` | Fast-CDR/include/fastcdr/CdrSizeCalculator.hpp:1184-1193 | an XCDRv1 header is charged 4 bytes up to the identifier 0x3F00 and 0xFFFF bytes, 12 beyond, none for a plain member of no bytes |
| `Charges.HeaderCharge2` | Fast-CDR/include/fastcdr/CdrSizeCalculator.hpp:1165-1263 | an XCDRv2 header is charged 4 or 8 bytes, by the rules of the two overloads, and moves the position by as much or by 4 more |
| `Charges.HollowCharge2` | Fast-CDR/include/fastcdr/CdrSizeCalculator.hpp:1165-1263 | none for a member of no bytes |
| `Charges.StringMemberCharge` | Fast-CDR/include/fastcdr/CdrSizeCalculator.hpp:1141-1281 | a string as the member of a mutable struct is charged 13 bytes more than its length, optional or not |
| `Charges.FlagLeftOver` | Fast-CDR/include/fastcdr/CdrSizeCalculator.hpp:1216-1281 | an optional leaves its flag to the members behind it: 30 bytes where a plain member leaves 34 |
| `Charges.FlagLeaksOut` | Fast-CDR/include/fastcdr/CdrSizeCalculator.hpp:1141-1206 | an optional string in a final struct makes that struct's own header 4 bytes too cheap |
| `SizeFacts.AbsentShortfall` | Fast-CDR/src/cpp/Cdr.cpp:2808-2862 | an absent optional behind a long header takes 12 bytes and is charged 4 |
| `SizeFacts.PresentShortfall` | Fast-CDR/src/cpp/Cdr.cpp:2864-2930 | a present one behind a header that must be long takes 13 bytes and is charged 5 |
| `SizeFacts.HollowShortfall` | Fast-CDR/include/fastcdr/CdrSizeCalculator.hpp:1177-1189 | a mutable struct with one member of no bytes takes 8 bytes and is charged 4 |
| `Rooms.PeakExact` | Fast-CDR/src/cpp/Cdr.cpp:2650-2669 | with short headers by default the encoder never reaches past the end of what it writes |
| `Rooms.PeakCovers` | Fast-CDR/src/cpp/Cdr.cpp:2637-2648 | whatever the selection, what is written does not reach past the high-water mark |
| `Rooms.ElasticAlways` | Fast-CDR/src/cpp/Cdr.cpp:2589-2635 | unless short headers may be made long, an XCDRv2 writer of any value asks for all the room it takes, so that `SerializeValue` needs none in advance |
| `Rooms.PermitsAuto` | Fast-CDR/src/cpp/Cdr.cpp:2975-3070 | only a selection restricted to short headers ever refuses a value |
| `Patching.BulkIsElements` | Fast-CDR/src/cpp/Cdr.cpp:948-995 | aligning once and copying all elements gives the cells of aligning and writing each in turn |
| `FastBuffers.Increment` | Fast-CDR/src/cpp/FastBuffer.cpp:64-72 | a buffer grows by what is missing or by 200 bytes, whichever is more |
| `FastBuffers.CapIs` | Fast-CDR/src/cpp/FastBuffer.cpp:59-96 | the bound on spare room is the largest of what was spare, 200 bytes and the request |
| `FastBuffers.FastBuffer.Reserve` | Fast-CDR/src/cpp/FastBuffer.cpp:44-57 | only a buffer of its own that has no memory yet takes a reservation |
| `FastBuffers.FastBuffer.Resize` | Fast-CDR/src/cpp/FastBuffer.cpp:59-96 | growing keeps every byte where it was; a user's buffer does not grow |
| `FastBuffers.FastBuffer.Wrap` | Fast-CDR/src/cpp/FastBuffer.cpp:59-96 | a request that makes the size wrap cuts the buffer short and keeps the rest |
| `FastBuffers.Rebase` | Fast-CDR/include/fastcdr/FastBuffer.h:72-79 | moving an iterator to another buffer keeps its index |
| `FastBuffers.Reposition` | Fast-CDR/include/fastcdr/FastBuffer.h:86-92 | taking over another iterator's index keeps the buffer |
| `FastBuffers.SavedIndexSurvives` | Fast-CDR/src/cpp/Cdr.cpp:420-428 | rebasing an iterator and taking over a saved one yields the saved index, and distances between rebased iterators are kept, so that saved states may be modelled as indices |
| `Growth.Run` | Fast-CDR/src/cpp/Cdr.cpp:458-470 | any run of number, array, string, wide string and sequence writes into a growing buffer succeeds, leaves exactly its cells behind what was there, and never leaves more spare room than the largest of the initial one, 200 bytes and the largest single request |
| `Growth.LargestAttained` | Fast-CDR/src/cpp/Cdr.cpp:458-470 | the largest request of a run is that of one of its writes |
| `Cdrs.RequestIs` | Fast-CDR/src/cpp/Cdr.cpp:780-852 | a string or sequence is asked for as its count and the rest, never as both at once |
| `Cdrs.Cdr.constructor` | Fast-CDR/src/cpp/Cdr.cpp:133-161 | a new codec is valid, at position 0, and writes in the chosen order on any host |
| `Cdrs.Cdr.Alignment` | Fast-CDR/include/fastcdr/Cdr.h:3041-3045 | in every valid state, those in the middle of a wide string included, the cached alignment is the true distance for every size |
| `Cdrs.Cdr.MakeAlignment` | Fast-CDR/include/fastcdr/Cdr.h:3051-3056 | the cursor moves and the cache is forgotten |
| `Cdrs.Cdr.ResetAlignment` | Fast-CDR/include/fastcdr/Cdr.h:305-309 | the origin is the cursor |
| `Cdrs.Cdr.SetState` | Fast-CDR/src/cpp/Cdr.cpp:420-428 | position, origin, exchange, cache and pending identifier are the saved ones, the cache still holds, and the order invariant survives if and only if the saved exchange is the one the chosen order calls for |
| `Runs.RestoredOrder` | Fast-CDR/src/cpp/Cdr.cpp:420-428 | a run on either host after which bytes are exchanged although the order on record does not call for it, or the reverse |
| `Cdrs.Cdr.Room` | Fast-CDR/src/cpp/Cdr.cpp:458-470 | room is there afterwards if it was or the buffer may grow; nothing written is lost and the spare room is bounded |
| `Cdrs.Cdr.Jump` | Fast-CDR/src/cpp/Cdr.cpp:385-402 | forward if the buffer reaches or can grow that far, otherwise not at all |
| `Cdrs.Cdr.JumpBack` | Fast-CDR/src/cpp/Cdr.cpp:385-402 | a distance that wrapped below zero: nothing happens over a user's buffer, the codec's own is cut short by it and the cursor goes back |
| `Cdrs.SwappedBytes` | Fast-CDR/src/cpp/Cdr.cpp:533-543 | the host's bytes, exchanged or not, are the number's bytes in the stream's order |
| `Cdrs.Cdr.SerializePrim` | Fast-CDR/src/cpp/Cdr.cpp:520-592 | a number goes to its alignment in the stream's order, nothing else changes, and a failure changes nothing at all |
| `Cdrs.Cdr.SerializeArray` | Fast-CDR/src/cpp/Cdr.cpp:901-1064 | for every width, count (0 included) and order, one alignment, one test and one copy leave the cells of that many single writes |
| `Cdrs.Cdr.SerializeString` | Fast-CDR/src/cpp/Cdr.cpp:780-817 | length, text and terminating zero, or a failure that leaves the state as it was, whichever step failed |
| `Cdrs.Cdr.SerializeWString` | Fast-CDR/src/cpp/Cdr.cpp:819-852 | count and 16 bits of every character up to the first zero, no terminator and no flag, or a failure that leaves the state as it was |
| `Cdrs.Cdr.SerializeSeqPrim` | Fast-CDR/include/fastcdr/Cdr.h:803-828 | count, elements and NEXTINT flag, or a failure that leaves the state as it was |
| `Cdrs.Cdr.DeserializePrim` | Fast-CDR/src/cpp/Cdr.cpp:1339-1411 | a number from any bytes, as decoding says; unless a boolean was bad, a failure changes nothing |
| `Cdrs.Cdr.DeserializeArray` | Fast-CDR/src/cpp/Cdr.cpp:1773-1938 | one alignment and one test give the values and cursor of that many single reads, or fail where they do |
| `Cdrs.Cdr.ReadString` | Fast-CDR/src/cpp/Cdr.cpp:1658-1687 | a string from any bytes, without its terminating zero if it has one; a failure leaves the state as it was |
| `Cdrs.Cdr.ReadWString` | Fast-CDR/src/cpp/Cdr.cpp:1689-1720 | a wide string from any bytes, without a zero at its end if it has one; a failure leaves the state as it was if and only if the doubled count did not wrap in 32 bits to a number of bytes that are there |
| `Runs.OverrunState` | Fast-CDR/src/cpp/Cdr.cpp:1689-1720 | a count of 2^31 + 1 in front of one character: the read fails and the state is not the one before it |
| `Cdrs.Cdr.DeserializeWChars` | Fast-CDR/src/cpp/Cdr.cpp:1629-1656 | the same into memory, where a zero at the end stays |
| `Cdrs.Cdr.DeserializeSeqPrim` | Fast-CDR/include/fastcdr/Cdr.h:1931-1966 | a sequence from any bytes; a failure leaves the state as it was unless the elements are booleans |
| `Cdrs.Cdr.ChangeEndianness` | Fast-CDR/src/cpp/Cdr.cpp:370-378 | keeps the invariant that bytes are exchanged exactly when the chosen order is not the host's |
| `Cdrs.Cdr.SerializePrimAs` | Fast-CDR/include/fastcdr/Cdr.h:395-416 | one number in an order of its own, on any host; the stream's order is back afterwards, failed or not |
| `Cdrs.Cdr.DeserializePrimAs` | Fast-CDR/include/fastcdr/Cdr.h:1443-1464 | the same for reading |
| `Cdrs.EncapsulationRoundTrip` | Fast-CDR/src/cpp/Cdr.cpp:197-330 | a reader recovers algorithm, order and options from exactly the four bytes a writer makes of them |
| `Cdrs.EncapsulationLiterals` | Fast-CDR/include/fastcdr/CdrEncoding.hpp:38-49 | the second byte is 0x0, 0x2, 0x6, 0x8 or 0xA by algorithm, and one more for little-endian |
| `Cdrs.ParseLiterals` | Fast-CDR/src/cpp/Cdr.cpp:197-285 | a reader takes exactly these ten values for what they are, behind a first byte of 0, and no others |
| `Cdrs.Cdr.SetEncodingFlag` | Fast-CDR/src/cpp/Cdr.cpp:342-356 | the algorithm can be chosen only at the beginning |
| `Cdrs.Cdr.SerializeEncapsulation` | Fast-CDR/src/cpp/Cdr.cpp:287-332 | the four bytes, with the origin behind them, or a failure that leaves the position |
| `Cdrs.Cdr.ReadEncapsulation` | Fast-CDR/src/cpp/Cdr.cpp:197-285 | succeeds exactly on an encapsulation and then has its version, algorithm, order and options; a failure restores the state, and the order invariant survives it if and only if the order ahead was the present one |
| `Runs.MisreadOrder` | Fast-CDR/src/cpp/Cdr.cpp:197-285 | an encapsulation in the other order that breaks off, after which it has not survived |
| `Cdrs.Cdr.BeginMember2` | Fast-CDR/src/cpp/Cdr.cpp:2932-2973 | a present member of a mutable struct gets a header as selected, by room or by growth, or fails for want of either or for an identifier beyond 28 bits; others change nothing |
| `Cdrs.Cdr.EndMember2` | Fast-CDR/src/cpp/Cdr.cpp:2975-3070 | the header gets the form that size, flag and selection call for, the body's bytes stand behind it unchanged wherever they were, nothing before the header changes; it fails exactly when the selection forbids that form or one byte of room for a longer header is missing |
| `Cdrs.FinishedEmpty` | Fast-CDR/src/cpp/Cdr.cpp:2621-2635 | a member of no bytes behind a long header: 0x40 on top, 0xC0 if it must be understood, and the second word is left as it was |
| `Cdrs.Cdr.ChangeToShort2` | Fast-CDR/src/cpp/Cdr.cpp:2637-2648 | the header shrinks from 8 to 4 bytes and the body moves up to it byte for byte |
| `Cdrs.Cdr.ChangeToLong2` | Fast-CDR/src/cpp/Cdr.cpp:2650-2669 | by `GuardPasses` the header grows from 4 to 8 bytes and the body moves away from it byte for byte, or nothing changes |
| `Cdrs.Cdr.ShrinkToLong2` | Fast-CDR/src/cpp/Cdr.cpp:2671-2681 | a header is joined with the length its body starts with |
| `Cdrs.Cdr.BeginMember1` | Fast-CDR/src/cpp/Cdr.cpp:2683-2736 | a header for no bytes where one is due, of 4 bytes up to the identifier 0x3F00 unless long ones come first and 12 otherwise, by room or by growth, and a new origin behind it; it fails exactly when neither is there or an identifier above 0x3F00 meets a selection restricted to short headers |
| `Cdrs.Cdr.EndMember1` | Fast-CDR/src/cpp/Cdr.cpp:2738-2806 | the header its identifier, size and selection call for, body and origin moved together, the distance from the origin kept; it fails exactly when the selection forbids that header or one byte of room for it is missing |
| `Cdrs.Cdr.ChangeToShort1` | Fast-CDR/src/cpp/Cdr.cpp:2500-2513 | the header shrinks from 12 to 4 bytes and the body moves up to it byte for byte |
| `Cdrs.Cdr.ChangeToLong1` | Fast-CDR/src/cpp/Cdr.cpp:2515-2536 | by `GuardPasses` the header grows from 4 to 12 bytes and the body moves away from it byte for byte, or nothing changes |
| `Cdrs.Cdr.BeginType2` | Fast-CDR/src/cpp/Cdr.cpp:3154-3174 | outside the plain encoding a type gets room for a DHEADER, growing if it may; without either it fails where it was |
| `Cdrs.Cdr.EndType2` | Fast-CDR/src/cpp/Cdr.cpp:3176-3193 | the DHEADER gets the number of bytes behind it, no other byte and no position changes, the caller's algorithm is back |
| `Cdrs.Cdr.BeginType1` | Fast-CDR/src/cpp/Cdr.cpp:3122-3134 | nothing but the algorithm changes |
| `Cdrs.Cdr.EndType1` | Fast-CDR/src/cpp/Cdr.cpp:3136-3152 | a mutable struct gets its sentinel, by room or by growth, or fails for want of either; the caller's algorithm is back |
| `Cdrs.Cdr.AllocateDheader` | Fast-CDR/src/cpp/Cdr.cpp:3390-3402 | room for a sequence's DHEADER, in XCDRv2 only, growing if it may; it fails exactly when there is neither room nor growth |
| `Cdrs.Cdr.SetDheader` | Fast-CDR/src/cpp/Cdr.cpp:3404-3417 | it gets the number of bytes behind it; the whole state is as before and no other byte changes |
| `Serializer.SerializeValue` | Fast-CDR/include/fastcdr/Cdr.h:2676-2711 | for every writable value of both versions and all four header selections, into a block or a buffer that grows on the way: it succeeds exactly if the selection permits every header and the block has room or may grow; then the buffer holds exactly the cells of the value from the old cursor on, everything before is kept, and cursor, origin, flag and algorithm are as laid out |
| `Serializer.SerializeDelimited2` | Fast-CDR/src/cpp/Cdr.cpp:3154-3193 | the DHEADER of an appendable or mutable struct holds the exact extent of its members, at whatever depth and however often the buffer has been reallocated since it was allocated |
| `Serializer.SerializeSeq2` | Fast-CDR/include/fastcdr/Cdr.h:773-795 | the same for a sequence of non-primitives |
| `Serializer.SerializeSeq` | Fast-CDR/include/fastcdr/Cdr.h:773-795 | a sequence of non-primitives of either version, or a failure exactly where room and growth, or the selection, deny it |
| `Serializer.SerializeStruct2` | Fast-CDR/src/cpp/Cdr.cpp:3154-3193 | the same for a struct of any extensibility |
| `Serializer.SerializeStruct1` | Fast-CDR/src/cpp/Cdr.cpp:3122-3152 | the same, with a sentinel if it is mutable |
| `Serializer.SerializeHeaded2` | Fast-CDR/src/cpp/Cdr.cpp:2932-3070 | a mutable struct's member ends up as if its final header had been known from the start, whatever header was allocated and whether or not the buffer grew |
| `Serializer.SerializeHeaded1` | Fast-CDR/src/cpp/Cdr.cpp:2808-2930 | the same for an XCDRv1 member, optional or not, within the room there is |
| `Serializer.SerializeOptional2` | Fast-CDR/include/fastcdr/Cdr.h:2808-2822 | a flag, and the value if there is one, or a failure exactly where room and growth, or the selection, deny it |
| `Deserializer.DeserializeValue` | Fast-CDR/src/cpp/Cdr.cpp:3195-3334 | from arbitrary bytes it succeeds exactly when decoding does, with the same value, cursor and origin, and then algorithm and pending identifier are the caller's again |
| `Deserializer.DeserializeSeq2` | Fast-CDR/include/fastcdr/Cdr.h:1855-1890 | elements while the extent lasts, defaults after it, and a failure unless it was used up |
| `Deserializer.DeserializeSeq1` | Fast-CDR/include/fastcdr/Cdr.h:1890-1922 | elements, or a failure that restores the state whichever element failed |
| `Deserializer.DeserializeFields` | Fast-CDR/src/cpp/Cdr.cpp:3302-3316 | the functor is asked member by member until it knows no more or the extent ends; the rest keep their defaults |
| `Deserializer.JumpTo` | Fast-CDR/src/cpp/Cdr.cpp:3302-3316 | the end of an extent is reached by a jump; an overshoot leaves a user's buffer and its cursor alone, and cuts the codec's own short by as many bytes with the cursor back at the end of the extent |
| `Deserializer.DeserializeSlot` | Fast-CDR/include/fastcdr/Cdr.h:2731-2756 | an optional member by its flag or by its header, whose size must be the one decoded |
| `Deserializer.DeserializeRounds2` | Fast-CDR/src/cpp/Cdr.cpp:3265-3298 | the member loop of a mutable struct ends, and gives what decoding gives |
| `Deserializer.DeserializeRounds1` | Fast-CDR/src/cpp/Cdr.cpp:3204-3230 | the same up to the sentinel |
| `Deserializer.ReadHeader2` | Fast-CDR/src/cpp/Cdr.cpp:3072-3120 | a header from any bytes, with a shared NEXTINT read and left in place |
| `Deserializer.ReadHeader1` | Fast-CDR/src/cpp/Cdr.cpp:2538-2587 | a header or sentinel from any bytes, with the new origin behind a header |
| `Calculators.Calculator.BeginType` | Fast-CDR/src/cpp/CdrSizeCalculator.cpp:53-71 | a DHEADER is counted where the encoder writes one, and the flag is reset |
| `Calculators.Calculator.EndType` | Fast-CDR/src/cpp/CdrSizeCalculator.cpp:73-92 | a sentinel is counted where the encoder writes one, and the flag is set after a DHEADER |
| `Calculators.Calculator.CalculateValue` | Fast-CDR/include/fastcdr/CdrSizeCalculator.hpp:443-571 | for values of any shape the calculator's loops come to the size function of the size theorems, position and flag included |
| `Calculators.Calculator.CalculateMember` | Fast-CDR/include/fastcdr/CdrSizeCalculator.hpp:1141-1206 | the overload for plain members, which takes a joined NEXTINT off the size but not off the position |
| `Calculators.Calculator.CalculateOptional` | Fast-CDR/include/fastcdr/CdrSizeCalculator.hpp:1216-1281 | the overload for optional members, with its own rule for the header |
| `EndToEnd.MessageRead` | Fast-CDR/src/cpp/Cdr.cpp:197-285 | a reader that knows nothing but its own type obtains its view of the value from encapsulation and cells |
| `EndToEnd.MessageAcceptedIff` | Fast-CDR/src/cpp/Cdr.cpp:3273-3286 | a message is accepted by exactly those readers that meet no unknown must-understand member |
| `EndToEnd.Send` | Fast-CDR/src/cpp/Cdr.cpp:287-332 | on any host a message can be written exactly if the selection permits its headers and it fits or the buffer is the codec's own, empty at first; its non-padding bytes depend on the value, the algorithm, the order and the selection only |
| `EndToEnd.Receive` | Fast-CDR/src/cpp/Cdr.cpp:197-285 | on any host a reader in its default configuration returns what the bytes say |
| `EndToEnd.Transfer` | Fast-CDR/include/fastcdr/Cdr.h:2676-2756 | writing on one host and reading on another gives the reader's view whenever the message could be written, for both versions, orders, all pairs of hosts, all header selections, blocks and growing buffers, and types that go together |
| `EndToEnd.PayloadSuffices2` | Fast-CDR/include/fastcdr/CdrSizeCalculator.hpp:1141-1281 | for every XCDRv2 value without zeros in its strings a payload of the calculated size has room for all the encoder reaches if and only if the drift is not negative |
| `EndToEnd.PayloadSuffices1` | Fast-CDR/include/fastcdr/CdrSizeCalculator.hpp:1141-1281 | in XCDRv1, without empty sequences of 8-byte elements, if and only if every header is lean |
| `EndToEnd.ShortPayload` | Fast-CDR/src/cpp/Cdr.cpp:2650-2669 | a value whose payload has 18 bytes where 22 are needed, and for which the guard of the longer header passes |
| `EndToEnd.Publish` | Fast-CDR/include/fastcdr/CdrSizeCalculator.hpp:1141-1281 | where the payload suffices, a payload of the calculated size takes the message and has as much to spare as the drift says, nothing in XCDRv1 without zeros in strings and empty sequences of 8-byte elements |
| `Employees.SerializeEmployee` | easydds/easyddsCdrAux.ipp:63-78 | the employee's cells, in a block or a growing buffer, or a failure exactly when they do not fit |
| `Employees.Serialize` | easydds/easyddsPubSubTypes.cxx:54-89 | succeeds exactly when the payload has room for the message, and then holds it, its length and its byte order; it opens with 00 08 00 00 or 00 09 00 00 in XCDRv2 and 00 00 00 00 or 00 01 00 00 in XCDRv1 |
| `Employees.Deserialize` | easydds/easyddsPubSubTypes.cxx:91-119 | returns the text of whatever message the used part of the payload holds, on any host, and fails on anything else |
| `Employees.CalculateSerializedSize` | easydds/easyddsPubSubTypes.cxx:121-138 | text size plus 13 or 9, in 32 bits |
| `Employees.ExtentIs` | easydds/easyddsCdrAux.ipp:63-78 | a message is 13 or 9 bytes longer than the text up to its first zero byte |
| `Employees.Exchange` | easydds/easyddsPubSubTypes.cxx:54-138 | for every text and both representations, a payload of the calculated size suffices exactly if the message is no longer than that size in 32 bits, which holds below 2^32; a reader on any host then gets the text up to its first zero byte, which is the whole text, and below 2^32 the calculated length, if and only if it holds no zero byte |

## Left out

- ReadHeader1: the parameter identifiers 0x3F03 to 0x3FFF, for which the source goes on with the previous member's header (and a nested struct with its parent's), and an alignment that leads past the end of the buffer are reported as errors.
- DeserializeRounds1: the same, through `ReadHeader1`.
- DeserializeValue: over a buffer of the codec's own it says what is read as long as no jump makes the codec reallocate it: past the end for a skipped member, where the buffer grows and reading goes on with unwritten bytes, or back for an extent that was overshot, where it shrinks (`JumpTo`). In XCDRv1 it is about user buffers only: the member loop looks for a sentinel, and on a buffer that grows at every jump it need not end.
- DeserializeSeq2: the same in XCDRv2.
- DeserializeFields: the same.
- DeserializeRounds2: the same.
- DeserializeSeq1: about user buffers only, for the same reason.
- DeserializeSlot: about user buffers only in XCDRv1, for the same reason.
- SerializeValue: requires room for everything the encoder reaches (`Peak`) where the encoder does not ask for it, that is unless `Elastic`: `make_alignment` before an XCDRv1 header does not test, and the guards of a header made longer miss a shortage of more than one byte, so that the source then leaves its buffer.
- SerializeHeaded1: requires that room for the same reason.
- BeginMember1: requires that the padding before the header is inside the buffer, for the same reason.
- EndType1: requires that the padding before the sentinel is inside the buffer, for the same reason.
- ChangeToLong2: excludes a shortage of more than one byte, for the same reason, and with it EndMember2.
- ChangeToLong1: excludes the same, and with it EndMember1.
- SerializeValue: requires that XCDRv2 mutable structs' members and XCDRv1 plain structs' optionals take at least one byte, because no reader gives them back otherwise (`HollowMember2`, `HollowOptional1`), and that a wide string has less than 2^31 characters, as its byte count in 32 bits demands.
- SerializeValue: takes one header selection for all members, where the source takes one for each.
- AcceptedIff: is about readers that differ in a tolerable way, so that it can say what they obtain; `RefusedByAny` has no such condition.
- MessageAcceptedIff: the same.
- SizeExact2: is false where long headers are insisted on; `SizeOff2` and `LongOnlyDrift` say by how much.
- SizeBound1: goes one way only for values with zeros in strings or empty sequences of 8-byte elements, where what is charged too much for them may make up for a header, or be made up for by an alignment (`EmptyThenLong`); `SizeExact1` has both directions for all others, and `EmptyLongs` says what such a sequence is charged.
- SizeOff2: is about values without zeros in their strings, for which the calculator counts bytes that are not written and goes on from another alignment.
- Publish: requires that the payload suffices, since the encoder leaves a payload that does not (`ShortPayload`).
- SavedIndexSurvives: is about iterators on their own; the codec's saved states hold indices.
- FastBuffer: allocation always succeeds; a user's buffer is copied in and out of the model rather than shared with the payload.
- `float` and `double` are 4- and 8-byte patterns; `long double` is not modelled.
- Maps, arrays of non-primitives, `external`, `fixed_string` and the overloads that allocate memory would only repeat the cases that are there.
- The functor of a final or appendable struct is asked for 0, 1, 2 and so on, so members are matched by position; in a mutable struct they are matched by identifier.
- The DDS_CDR and CORBA versions, `FastCdr`, exception classes and the type's key functions.
- The publisher and subscriber applications, command line parsers and discovery server, which are input, output and library calls.
