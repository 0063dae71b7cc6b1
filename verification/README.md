# A verified model of OpenDMI

OpenDMI reads the SMBIOS tables of a machine, decodes their structures, and
writes them back. This project models the parts of it where reading and writing
have to agree, and proves that they do.

- **The field engine.** A structure is described by a list of fields, and the
  same list drives a decoder and an encoder: integers, binary-coded decimals,
  strings, UUIDs, binaries, ranges of bits and the pads which close them, nested
  structures, vectors, arrays with counts and strides, groups of a version, and
  plain fields whose values extended ones carry where they do not fit. In the
  preserve mode the encoder writes the very bytes which have been decoded; in
  the canonical one it writes a structure from scratch, for any version.
- **Tables.** How a structure is told apart from the bytes after it, string
  sets, the scan of a table, and the registry with its hash index.
- **Around them.** The map of types and the modules which add to it, anonymizing
  a table in place, entry points and how they are moved into a dump, saving a
  dump while others touch the same files, additional information laid over
  structures, the walk over attributes, the text of IPv6 addresses, and the
  memory of arrays.

Each part which works by changing things is a class or a method over arrays and
fields, with the loops the program has, and is proved against functions which
say what it computes. What the program promises is then proved about the
functions: `Decoding` and `Encoding` specify the engine, `DecodingEngine`,
`EncodingEngine` and `Engine` refine them, and `Structure`, `Observed`, `Parts`
and `Canonical` state the main results.

Handlers of fields are pairs of functions: what a decoding one sets depends on
the data alone, and an encoding one gives the data back. `WellFormed` has the
side conditions the engine takes for granted of a list of fields, `Portable` the
ones the canonical mode needs of the fields and of the values.

Five properties which may be expected are false of the program. Each has an
input which shows it, and the exact condition under which it holds:

- *A dump without overwriting never replaces a file.* It does where hard links
  do not work: a file which comes between the last look and the renaming is
  lost (`SaveProtocol.RenameMayReplace`, for every dump), and so may one be
  where a single link is refused (`RefusedMayReplace`). A step replaces an
  existing file exactly when it is the renaming and it succeeds
  (`ReplacedByRename`), and as long as no link is refused, none of the runs does
  exactly where the file system has hard links (`LinksDecide`).
- *An anonymized table is cut into the same structures.* A binary value gets any
  bytes, zeros included, and they end a string set early where a string holds
  the value too (`Anonymization.UnsafeLosesLayout`). The table is cut the same
  exactly when its string sets scan to the extents they had, and it is if the
  replacements are zero where their values are (`KeptIsScanned`), as those of
  texts are.
- *A private binary is replaced in the table.* A structure some of whose numbers
  or UUIDs are private too is encoded after that, and the encoding puts the
  binary back. The search finds it again if it is of six bytes or more
  (`Replacements.LongIsWritten`), but a shorter one is left as it was
  (`PutBack.ShortIsPutBack`, whatever is drawn). A binary the search finds
  nothing over is left exactly when the last encoding of its structure puts it
  back, or its replacement happens to be itself (`Replacements.BinaryIsLeft`).
- *An entry point which decodes, decodes again in a dump.* One of version 2.1
  which is a byte short has the checksum of its second part unchecked, and fails
  once it is padded (`EntryPoints.ShortMayBeLost`); the others are fine, and so
  is a short one whose second part sums to zero over the bytes it has
  (`RelocatedIsDecoded`).
- *A field of a group the version has is read back from what the canonical mode
  has written.* Its value is given up where the encoder chooses the extended
  field, and the group of that one is not written for the version
  (`Canonical.WidenedIsLost`). It is read back exactly when the values do not
  ask for the extended field, or the number which tells of it decodes into the
  value anyway (`CutIsRestored`).

The comment on committing a dump (libopendmi/src/context-save.c:152-155) says
that an existing file is never replaced without overwriting; the model follows
the code, which replaces it in the first case above.

## Model

| member | source | states |
|---|---|---|
| Observed.CompleteIdentity | libopendmi/include/opendmi/encoder.h:34-46 | a structure whose decoding succeeds, and is not told to be incomplete, is encoded in the preserve mode into exactly its own bytes: header, reserved bits, tails of elements and the bytes after the last field included |
| Structure.PreserveIdentity | libopendmi/src/field-encode.c:403-436 | the same of any decoding which has not lost bytes, however much of the structure it has got through |
| Identity.ListKeeps | libopendmi/src/field-encode.c:484-545 | the invariant behind it, for nested lists, parts and elements: after decoding and encoding a list both stand at the same byte and bit, and all that has been written is the source's own |
| Observed.ListTells | libopendmi/src/field-decode.c:484-570 | when a caller can tell that nothing has been lost: a list which is decoded, and leaves the structure neither incomplete nor misspelt, has lost nothing |
| Parts.PartIdentity | libopendmi/src/field-encode.c:438-482 | a part decoded and encoded through a window comes out as its own bytes, and the structure goes on in step right after it |
| Engine.DecodeStructure | libopendmi/src/field-decode.c:395-430 | the decoder over a table, with its cursors and its accumulator, computes the members, the level and the flags the specification does |
| Engine.DecodeInto | libopendmi/src/field-decode.c:432-472 | a part is decoded through a narrowed reader, which is moved exactly past the part and gets its bound back whatever becomes of the fields; too short a structure leaves everything as it was |
| Engine.EncodeFrom | libopendmi/src/field-encode.c:438-482 | a part is written with a state of its own, padded to its length, and the run of bits around it goes on |
| Engine.EncodeStructure | libopendmi/src/encoder.c:273-317 | the encoder appends to a buffer the structure the specification gives, or fails exactly when it does; nothing before it in the buffer changes |
| Engine.Rewrite | libopendmi/include/opendmi/field.h:767-770 | the two together: what is decoded completely from a table is written at the end of another buffer as the same bytes |
| DecodingEngine.Decoder.DecodeList | libopendmi/src/field-decode.c:484-562 | the loop over the fields, with groups, presets, boundaries, choices and early stops, is the recursive specification |
| DecodingEngine.Decoder.DecodeArray | libopendmi/src/field-decode.c:853-909 | counts, strides, elements stepped over and leftovers: the array the specification reads |
| DecodingEngine.Decoder.TakeBits | libopendmi/src/field-decode.c:826-851 | a 64-bit accumulator gives the bits of the data in little-endian order, a range at a time |
| EncodingEngine.Encoder.EncodeList | libopendmi/src/field-encode.c:484-545 | the loop over the fields, in both of the modes, is the recursive specification |
| EncodingEngine.Encoder.EncodeArray | libopendmi/src/field-encode.c:770-818 | an array is written, or kept as it is, as the specification says |
| EncodingEngine.Encoder.PutBits | libopendmi/src/field-encode.c:946-965 | ranges of bits go into bytes as they fill, and the 64-bit accumulator never overflows |
| EncodingEngine.Encoder.SourceBits | libopendmi/src/field-encode.c:967-978 | the bits the source holds where the next range goes |
| EncodingEngine.Encoder.AddString | libopendmi/src/encoder.c:319-356 | equal strings share a number in the canonical mode and keep their own ones in the preserve one |
| EncodingEngine.FieldsSize | libopendmi/src/field-encode.c:1276-1327 | bytes the fields of an element take, or zero if it depends on the data |
| Abreast.StructureAbreast | libopendmi/src/encoder.c:136-185 | in the preserve mode the source stands at the lesser of what has been written and of its own length, whatever values are written |
| Abreast.ListAbreast | libopendmi/src/encoder.c:136-155 | the same after any list, nested or not |
| Abreast.PartAbreast | libopendmi/src/field-encode.c:438-482 | the same through the narrowed window of a part, within it and after it |
| Lockstep.RangeKeeps | libopendmi/src/field-encode.c:887-918 | the source holds at its position exactly the bits the decoder takes there, and writing them keeps the two in step |
| Lockstep.TakenBits | libopendmi/src/field-decode.c:826-851 | bits taken and bits left are the ones there were and those of the bytes read, in order |
| Stream.PutBitsStreams | libopendmi/src/field-encode.c:946-965 | writing a range appends its bits to the stream of all that has been written |
| Reread.RangeIsReread | libopendmi/src/field-decode.c:826-851 | what is taken from written bytes is the range which has been put there |
| BitRuns.ToFromBits | libopendmi/src/field-decode.c:826-851 | bits gathered into a number are the bits of the number |
| BitRuns.FromToBits | libopendmi/src/field-encode.c:946-965 | a number cut to a range of bits is the number modulo two to its width |
| BitRuns.PickedFromBytes | libopendmi/src/field-encode.c:967-978 | shifting and masking the number some bytes spell picks the bits in the middle of them |
| Bytes.StoreLoad | libopendmi/src/field-internal.h:122-144 | storing the number loaded from bytes gives the bytes back |
| Bytes.LoadStore | libopendmi/src/field-internal.h:122-144 | loading a number which has been stored gives it modulo 256 to the length |
| Words.LoadNumber | libopendmi/src/field-internal.h:126-134 | the loop which shifts bytes into a number loads the number they spell |
| Words.StoreNumber | libopendmi/src/field-internal.h:140-144 | the loop which shifts a number out stores its bytes |
| Words.LoadDigits | libopendmi/src/utils/codec.c:11-28 | the digits of binary-coded decimals make the number they spell |
| Words.SpellDigits | libopendmi/src/utils/codec.c:30-41 | a number is spelled by its decimal digits, two in a byte |
| Canonical.CanonicalRoundTrip | libopendmi/src/field-encode.c:520-531 | decoding what the canonical mode has written for a version gives back every field of the groups up to it, but the ones whose extended field is left out and asked for, which hold the number telling of it; strings are all different, and each number refers to the text there was; written again as it is, the structure keeps its bytes |
| Canonical.CutIsRestored | libopendmi/src/field-encode.c:722-741 | a plain field whose extended one is in a group left out is read back exactly when the values have not asked for the extended one, or its number decodes into the value anyway |
| Canonical.WidenedIsLost | libopendmi/src/field-encode.c:743-768 | an input where they have: a capacity of 300, decoded from a structure which has the group, and read back as 255 from one written for a version without it |
| Rounds.CanonicalChoice | libopendmi/src/field-encode.c:699-741 | the canonical mode takes the extended field exactly when the value or one governed with it does not fit, or the number of the value is the one telling of the extended field |
| Rounds.PlainIsReread | libopendmi/src/field-decode.c:673-726 | a plain field nothing else is keyed on is read back as its value, or as the number telling of its extended field where that one is chosen |
| Rounds.ExtendedRound | libopendmi/src/field-decode.c:651-671 | an extended field gives the value back exactly when the plain one tells of it, and changes nothing otherwise |
| Rounds.MadeTextIsReread | libopendmi/src/encoder.c:187-241 | a text a handler has made is stored, and read back by the handler as the value it spells |
| Carried.ListFlows | libopendmi/src/field-encode.c:484-545 | a list with no groups is written in full, and what is written is longer by it exactly when its values carry data, which decides where a structure written for a version ends |
| Identity.GovernedFrom | libopendmi/src/field-encode.c:699-741 | where the source has held a value itself, all the values governed along with it fit their fields, so that the encoder makes the choice the source has made |
| StringSets.DecodeLength | libopendmi/src/entity.c:718-758 | the end and the number of strings of a set, looking at no byte past the table |
| StringSets.DecodeStrings | libopendmi/src/entity.c:760-803 | the strings found, printed again, are the bytes of the set |
| StringSets.PrintedIsScanned | tools/dmidecode-to-bin.py:54-56 | a printed set is scanned to its whole length and as many strings, and is one byte longer than the strings with a zero each |
| StringSets.PrintedIsDecoded | tools/dmidecode-to-bin.py:54-56 | strings found in a printed set are the ones printed |
| StringSets.StringOffset | libopendmi/src/lint.c:291-308 | the offset of a string is told exactly for the numbers there are |
| StringSets.StoredAt | libopendmi/src/lint.c:291-308 | the bytes at that offset are the string's, with a zero behind them |
| Tables.CreateStructure | libopendmi/src/entity.c:158-245 | the checks of a structure come in an order in which every byte looked at is there |
| Tables.ScanTiles | libopendmi/src/registry.c:346-433 | for any bytes, the structures found stand one after another from the beginning of the table and end in it |
| Tables.TilesPartition | libopendmi/src/registry.c:346-433 | every byte of what they cover is in one structure, and in one only |
| Tables.ScanFound | libopendmi/src/registry.c:346-433 | each of them is created where it stands, and takes six bytes at least |
| Tables.NothingPastEnd | libopendmi/src/registry.c:346-433 | nothing is found after an end of the table |
| Tables.OutcomeTells | libopendmi/src/registry.c:346-433 | a scan is complete exactly when it stops at the limit or at an end of the table, and is cut or fails only where no structure stands |
| Tables.PrintedTableIsScanned | tools/dmidecode-to-bin.py:270-278 | a printed table is scanned into the structures it has been printed from |
| Tables.SetsDecideScan | libopendmi/src/registry.c:346-433 | two tables with the same headers are cut the same exactly when each string set scans to the same extent |
| Tables.SameLayoutIsScanned | libopendmi/src/entity.c:718-758 | it is enough that their string sets have zeros in the same places |
| Registries.Registry.Put | libopendmi/src/registry.c:668-727 | a structure is hung on the end of its chain and of the list unless its bucket has one of the same offset, and nothing else changes |
| Registries.Registry.Scan | libopendmi/src/registry.c:346-433 | the registry holds the structures of the scan in their order, and tells how it has ended |
| Registries.Registry.Lookup | libopendmi/src/registry.c:61-111 | a lookup through the hash index answers as one through the list would: the first structure of the handle, in the order of the table |
| Registries.ChainsPartition | libopendmi/src/registry.c:668-727 | the chains have every structure once, each in the order of the list |
| Registries.Cursor.Next | libopendmi/src/registry.c:642-666 | the iterator tells the structures its filter lets through, one by one, and nothing after the last of them |
| Registries.Cursor.HasNext | libopendmi/src/registry.c:619-640 | there is a next structure exactly when one is still to be told |
| Registries.FilteredIsExact | libopendmi/src/registry.c:601-666 | what the filter leaves has exactly the structures which pass it, as often as the list has them |
| TypeMap.Map | libopendmi/src/context-types.c:291-345 | mapping fails exactly when a type gets two specifications of no signature, or more signed ones than there is room for, from the standard and the modules which do not yield; otherwise all of those are mapped, standard ones first, slots have no gaps, and a yielding one is mapped unless its place is taken |
| TypeMap.OrderDoesNotMatter | libopendmi/src/context-types.c:291-345 | whether it fails does not depend on the order of the modules |
| TypeMap.Context.Rebuild | libopendmi/src/context-types.c:347-360 | a map which cannot be built leaves the one there was |
| TypeMap.Relocate | libopendmi/src/context-types.c:378-407 | the types a specification is moved to, one by one |
| TypeMap.Select | libopendmi/src/entity.c:665-684 | stopping at the first empty slot misses no candidate: the first one whose signature matches is selected, or the unsigned one |
| Anonymized.Anonymize | libopendmi/src/anonymize.c:576-665 | from a table to an anonymized one: the table and the values are exactly those the plan finishes with; every private binary, identifier and replaced member is looked for; every replacement has been drawn for its value or taken from an encoding; every byte of a private text, and of a binary not encoded after it, is a byte of a replacement; every occurrence of a value looked for is written over; and the result is cut into the same structures exactly when its string sets scan to their extents, which replacements keeping zeros see to |
| Replacements.FinishedAt | libopendmi/src/anonymize.c:576-614 | every byte of the anonymized table is the one the last step over it has written, or a byte of a replacement standing where the search has found its value |
| Replacements.TextIsWritten | libopendmi/src/anonymize.c:837-884 | a private text of a string, however short, is written over where the string holds it |
| Replacements.BinaryIsWritten | libopendmi/src/anonymize.c:886-912 | a private binary, however short, is written over where it is unless its structure is encoded after it |
| Replacements.BinaryIsLeft | libopendmi/src/anonymize.c:988-1025 | a binary the search finds nothing over is left as it was exactly when the last encoding of its structure puts it back, or its replacement is itself |
| Replacements.LongIsWritten | libopendmi/src/anonymize.c:1212-1274 | a private binary of six bytes or more is written over by the search, even if it has been put back, whole or by an occurrence it begins in |
| PutBack.ShortIsPutBack | libopendmi/src/anonymize.c:773-800 | a structure of a private binary of four bytes and a private number: the number is replaced, and the binary is as it was, whatever is drawn |
| Replacements.ValuesAreMade | libopendmi/src/anonymize.c:837-1066 | the replacement of every value has been drawn for it, as a text or as bytes, or is what the encoding of its structure has in its place |
| Replacements.AllAreKnown | libopendmi/src/anonymize.c:837-1066 | binaries, texts which are identifiers, and members an encoding has others for are all looked for |
| Replacements.FinishedIsClean | libopendmi/src/anonymize.c:650-665 | all the strings and the bodies are searched for all the values |
| Placed.EntriesArePlaced | libopendmi/src/entity.c:760-803 | strings decoded from a structure stand one after another in its set, where their lengths put them |
| Placed.TextIsReplaced | libopendmi/src/anonymize.c:862-884 | the trimmed text of a string is always found in it, and written over where it stands |
| Anonymization.ReplaceText | libopendmi/src/anonymize.c:1161-1180 | the loop draws digits and letters of their kind for those of a text, and keeps everything else; zeros stay where they are |
| Anonymization.Search.NothingIsLeft | libopendmi/src/anonymize.c:1227-1274 | searching a range from the longest values on changes bytes to bytes of replacements only, and writes every occurrence over from its first byte to its last, unless it begins in another occurrence of the value, which then is |
| Anonymization.Anonymizer.Replace | libopendmi/src/anonymize.c:1227-1274 | the loops over lengths, values and positions do just that |
| Anonymization.Anonymizer.Add | libopendmi/src/anonymize.c:1081-1123 | a value is kept once, and is looked for everywhere once it has been asked to |
| Anonymization.IsIdentifier | libopendmi/src/anonymize.c:1125-1145 | a text is an identifier exactly when it is one word, with a digit, of three different characters |
| Anonymization.Anonymizer.MemberBinary | libopendmi/src/anonymize.c:886-912 | a binary in the table is replaced there, but for the manufacturer of a MAC address; one elsewhere is left alone |
| Anonymization.Anonymizer.Write | libopendmi/src/anonymize.c:988-1025 | a structure is written over itself only if it is encoded into its own length, and its header and strings stay |
| Anonymization.Anonymizer.Collect | libopendmi/src/anonymize.c:1027-1066 | values a structure has been written with are looked for elsewhere as it holds them |
| Anonymization.Anonymizer.KeptIsScanned | libopendmi/src/anonymize.c:650-665 | the anonymized table is cut the same exactly when each string set scans to its extent, and it is when replacements keep zeros |
| Anonymization.UnsafeLosesLayout | libopendmi/src/anonymize.c:886-912 | a value of a body, replaced by bytes with zeros, which ends the set of the string holding it too |
| SavedMembers.Members.ReplaceAll | libopendmi/src/anonymize.c:914-986 | what is encoded are the members replaced one after another, each as it is in its turn, and exactly if one of them is short enough and holds a value; whatever they are, twice or overlapping, the decoded structure is left as it was |
| SavedMembers.Members.Restore | libopendmi/src/anonymize.c:1068-1079 | members saved are put back in the reverse order |
| SavedMembers.ReplacementStands | libopendmi/src/anonymize.c:914-944 | a replacement never stands for no value, and keeps the version of a UUID |
| SaveProtocol.TargetIsWhole | libopendmi/src/context-save.c:308-345 | whatever the steps of others come in between, the file of a dump is seen under no name but its temporary one unless it is complete |
| SaveProtocol.OutcomeIsTold | libopendmi/src/context-save.c:366-491 | a save which fails has not touched the target, and one which succeeds has published the dump |
| SaveProtocol.ReplacedByRename | libopendmi/src/context-save.c:446-491 | an existing target is replaced by a step exactly when it is the renaming and it succeeds |
| SaveProtocol.NeverReplaced | libopendmi/src/context-save.c:446-491 | without overwriting, and with hard links none of which is refused, no step of a run replaces an existing file |
| SaveProtocol.RenameMayReplace | libopendmi/src/context-save.c:446-491 | without hard links, for every dump, a run which replaces a file all the same |
| SaveProtocol.RefusedMayReplace | libopendmi/src/context-save.c:446-491 | with hard links, for every dump, a run which replaces a file as one link is refused |
| SaveProtocol.LinksDecide | libopendmi/src/context-save.c:446-491 | as long as no link is refused, all the runs without overwriting leave existing files alone exactly where there are hard links |
| SaveProtocol.NothingIsLeftBehind | libopendmi/src/context-save.c:403-491 | no temporary file outlives a run whose removals succeed |
| SaveProtocol.RegularIsIndirect | libopendmi/src/context-save.c:308-345 | as long as the target is missing or regular, it is not opened directly |
| SaveProtocol.DirectEmpties | libopendmi/src/context-save.c:308-364 | which file a direct opening empties, exactly |
| SaveProtocol.DirectKeepsFiles | libopendmi/src/context-save.c:308-364 | without overwriting, a direct opening right after the look at the target empties no file |
| EntryPoints.State.Read | libopendmi/src/entry.c:152-329 | the three kinds of entry points are told and read as specified |
| EntryPoints.RelocatedIsDecoded | libopendmi/src/context-save.c:514-563 | an entry point moved into a dump decodes as it did, at its new address, unless it is a short one of version 2.1 whose second part does not sum to zero |
| EntryPoints.GeneratedIsDecoded | libopendmi/src/context-save.c:565-595 | a generated entry point decodes into the version and the length it has been generated for |
| EntryPoints.PrintedIsDecoded | tools/dmidecode-to-bin.py:236-267 | so does the one the script makes, of version 2.1 |
| EntryPoints.ShortMayBeLost | libopendmi/src/entry.c:182-224 | a short entry point which does not decode any more in its dump |
| EntryPoints.Build | libopendmi/src/context-save.c:514-595 | the bytes patched in place are those of the specification |
| EntryPoints.CalculateChecksum | libopendmi/src/utils.c:88-105 | the checksum is what makes the sum zero modulo 256, and is zero exactly when it is already |
| Overlays.OverlaidBytes | libopendmi/src/entity.c:871-906 | a body with entries laid over it keeps its length and header, and each other byte is of the last entry covering it, or its own |
| Overlays.Structure.ApplyOverlays | libopendmi/src/entity.c:871-906 | the copy made in a buffer has those bytes |
| Overlays.Structure.AddOverlay | libopendmi/src/entity.c:551-617 | an entry is attached exactly when it may be, behind the ones before it |
| Buffers.Buffer.Write | libopendmi/src/buffer.c:133-158 | writing past the end makes the buffer longer, with zeros in between, and changes nothing else |
| Buffers.Buffer.Resize | libopendmi/src/buffer.c:76-93 | bytes gained are zeros, and bytes dropped do not come back |
| Buffers.Reader.Rewind | libopendmi/src/reader.c:80-86 | a reader goes back to where it has been marked, if that is within its bound, and to no mark of another range |
| AttributeWalk.Walker.Walk | libopendmi/src/attribute-walk.c:91-249 | for every visitor, callbacks come in their places: members and items in order, all of them, everything gone into left and nothing skipped left; the walk fails exactly when a callback stops it, which is then the last one called |
| AttributeWalk.BracketsMatch | libopendmi/src/attribute-walk.c:113-222 | along any trace of callbacks in their places, what has been gone into is either open still or has been left as many times |
| AttributeWalk.Walker.Resolve | libopendmi/src/attribute.c:581-607 | the loop over variants chooses as specified |
| AttributeWalk.ChosenIsDefault | libopendmi/src/attribute.c:581-607 | where no variant matches, the last default one is taken, if there is any |
| Ipv6.TextIsRead | libopendmi/src/attribute.c:1068-1124 | the text of any address is read back as the address, and is no longer than 39 characters |
| Ipv6.FormattedIsRead | libopendmi/src/attribute.c:1068-1124 | the text tells the sixteen bytes it has been made of |
| Ipv6.Format | libopendmi/src/attribute.c:1068-1124 | the text leaves out the first of the longest runs of two zero groups or more, and only it (section 4.2 of RFC 5952) |
| Ipv6.FindLongest | libopendmi/src/attribute.c:1077-1094 | the loop finds that run |
| Ipv6.LongestIsOne | libopendmi/src/attribute.c:1077-1094 | there is one such run at most, so that the text of an address is one |
| Ipv6.Hex | libopendmi/src/attribute.c:1106-1119 | numbers have no leading zeros (section 4.1 of RFC 5952) |
| ArrayBlocks.Heap.DecodeAndRelease | libopendmi/src/field.c:183-221 | after a decode, failed or not, and a release, the blocks allocated at any depth have all been freed, each of them once, and nothing leads to them |
| ArrayBlocks.Heap.DecodeList | libopendmi/src/field-decode.c:853-909 | however far a decode gets, what it has allocated is what the fields lead to |
| ArrayBlocks.Heap.DecodeElement | libopendmi/src/field-decode.c:960-990 | what an element which is not there in full has allocated is freed at once |
| ArrayBlocks.Heap.ReleaseList | libopendmi/src/field.c:196-255 | a release frees exactly the blocks the fields lead to |
| ArrayBlocks.WellFormedAreApart | libopendmi/include/opendmi/field.h:767-770 | fields which satisfy the engine's conditions use members of their own, as the two above need |

## Left out

- Structure.PreserveIdentity: a decoding which ends in a run of bits, a skip, a binary of a counted length or an array with fields after it is not covered, because the bytes it has read past are in no member.
- Observed.CompleteIdentity: binary-coded decimals have to be digits or the number for "unknown", which the program does not check; the flag `misspelt` of the specification tells it.
- Canonical.CanonicalRoundTrip: fields behind the last group written are not mentioned, and the values have to be ones their fields can carry; arrays which leave their length to the rest of the data, and binaries which do, come last.
- Anonymized.Anonymize: which attributes are private, whether a text is a placeholder, and what the members are replaced by, come from outside; binaries are taken to lie in the body of their structure, where the decoder has found them; a text which none of the strings has been made into is written over only where the search finds it.
- ArrayBlocks.Heap.DecodeAndRelease: what the data says is arbitrary, and the elements of a block are kept with its address, so that aliases other than a double release are not expressed.
- AttributeWalk.Walker.Walk: selectors of variants are numbers of no sign, and plain values are not looked into.
- SaveProtocol.RegularIsIndirect: links to links are not followed, and a directory is not told from a stream.
- Backends, files, memory mapping, locks, the pager, logs and the terminal; only the steps of a save are modelled, over names and contents, and not the ones Windows has for it.
- Running out of memory, null arguments, and the texts of errors.
- Keys, hashes and random numbers: replacement bytes are arbitrary, or arbitrary ones of a kind.
- Handlers of particular types, and whether each of the specifications in the library satisfies the conditions of `WellFormed` and `Portable`.
- Decoding on demand, linking of structures, properties, and overlays found through the registry.
- Removing a module which brings relocations while its types are in use.
- Formats of attributes other than IPv6 addresses, translations, and the output formats.
- Filters, options, platform matching, the other tools, and the bindings.
