# AI Shield: verified model

A Dafny model of the parts of AI Shield (a Windows security platform in C++) whose correctness is hardest to see
from the code, with proofs about all inputs and all runs. `dafny verify dfyconfig.toml` checks the whole project.

Each component has a specification made of functions, methods and classes that work as the C++ does (cursors that
advance, tables and queues that grow, budgets shared by a recursion) and are proved to compute that specification,
and lemmas that say what the specification means.

| part | files | main results |
|---|---|---|
| ZIP and DEFLATE inspection | `BitStream`, `Huffman`, `Deflate`, `Inflater`, `InflateTheory`, `DeflateEncoder`, `DeflateRuns`, `DeflateExamples`, `Crc32`, `Utf8`, `EntryNames`, `ZipFormat`, `ZipReport`, `ZipWalk`, `ZipTheory`, `ZipClean`, `ZipFindings`, `ZipRecords`, `ZipWide`, `ZipExact`, `ZipWriter`, `ZipReadBack`, `ZipExamples`, `ZipSample` | the inflater accepts exactly the encodings of RFC 1951 and returns their expansion; a clean summary means everything was inspected, at every depth; each finding is reported exactly under its condition on the data; the shared budget holds for every input; a reference writer's archives are read back completely, nested ones included |
| audit chain | `Sha256`, `Sha256Constants`, `Sha256Examples`, `AuditChain`, `AuditCodec` | a checkpoint fixes the whole chain or a collision is exhibited; the export is a bijection; the streaming hash is the one of FIPS 180-4 |
| causal graph | `CausalGraph` | the walk to a root succeeds exactly when it enters no cycle |
| flow limits | `FlowControl`, `UdpSessions` | the rate bound over every run, also under wrap-around; when waiting costs tokens |
| runtime store | `RuntimeCodec`, `RuntimeStore` | crash consistency and monotone versions over every run, with every disk step allowed to fail or be cut short |
| ransomware detector | `Ransomware`, `RansomwareTheory` | the sliding window against the full history, and exactly when they differ |
| telemetry queue | `FleetQueue` | conservation, order and what may leave the queue, over every run |

`Bytes` holds what they share: bytes, machine integers, little-endian numbers.

How the model reads the C++:

- The Boolean members of the ZIP summary are one set of findings, and the summary is a function of a tree with one
  visit per directory record. Masks of header bits are written as quotients by powers of two,
  and `ZipFindings` ties them to the masks of the source.
- `size_t` is taken to be 64 bits wide, so comparisons with its maximum never fire. Entry counters, byte totals, token
  arithmetic, sequence numbers, code tables and tally counters keep the widths of the source, wrap-around included.
- `file_preflight::inspect` is an arbitrary function from content and name to flags. The hash of the audit chain is an
  arbitrary function, and SHA-256 is put in its place afterwards.
- Protected files are absent, unreadable or hold exactly the serialised bytes: encryption is the identity on what it
  accepts, and damaged or half-written files do not decrypt. A copy may leave its target old, torn or whole, a rename
  takes effect or not, and every step may succeed, fail or be the last before a crash. Random keys are inputs.
- Identifiers of graph nodes are natural numbers, and what nodes and batches only carry is an opaque byte string.
- The 64 round constants and eight initial values are laid out in rows of four.

What the proofs show about the code, beyond confirming it:

- The byte totals of nested archives are exact exactly while the true sum fits 64 bits. A flat archive saturates, but a
  nested total is added with wrap-around, and an archive of 81 bytes inside another makes it wrap
  (`ZipClean.TotalBytesExact`, `ZipExamples.NestedTotalWraps`).
- A correct data descriptor without its signature is refused exactly when its checksum equals the signature, unless both
  sizes and the word behind it repeat the signature as well (`ZipWide.UnsignedDescriptorExact`). A file of four bytes is
  enough (`ZipExamples.DescriptorMistaken`).
- The inspector's 32-bit entry counters cannot wrap while the byte budget is at most 128 GiB (`ZipTheory.CountersFit`);
  beyond that the entry limit holds modulo 2^32 (`ZipTheory.InspectionBounded`).
- A token bucket with a capacity of 2^31 or more can lose tokens by being left idle, and no smaller one can
  (`FlowControl.PausesAreFreeExactly`). The credit of a long pause is the nominal one exactly under a condition on the
  64-bit product (`FlowControl.CreditExact`). The rate bound holds regardless.
- The detector forgets observations that its window covers once a timestamp goes back
  (`RansomwareTheory.WindowIsRecentExactly`, `RansomwareTheory.ClockSetBackForgets`).
- After an acknowledgement of everything pending, and only then, the telemetry queue takes old sequence numbers again
  (`FleetQueue.ReplayExactly`, `FleetQueue.ReplayTaken`).
- When the primary file of the runtime store cannot be read, the store falls back by one change
  (`RuntimeStore.OneCopyIsEnough`). A legacy key file whose removal is refused or not reached when the store is created
  is never removed later (`RuntimeStore.LegacyExact`, `RuntimeStore.LegacyOutlives`).

## Model

| member | source | states |
|---|---|---|
| BitStream.BitReader.Read | src/zip_preflight.cpp:139-148 | reads the next `count` bits, least significant bit of each byte first, as one number and moves past them; refuses more than 24 bits or more than are left, and then does not move |
| BitStream.BitReader.Align | src/zip_preflight.cpp:150 | moves to the least multiple of eight at or above the position, and so not at all when it is on one |
| BitStream.FieldAt | src/zip_preflight.cpp:139-148 | a field reads as `v` exactly where the binary digits of `v` stand in the stream, for every width up to 24 |
| BitStream.PackRoundTrip | src/zip_preflight.cpp:139-148 | bits packed into bytes are the bits the reader sees |
| Huffman.AcceptedIffKraft | src/zip_preflight.cpp:172-176 | the running over-subscription test accepts exactly the length vectors that satisfy Kraft's inequality and use at least one code; incomplete codes are accepted, the empty one is not |
| Huffman.CodeFits | src/zip_preflight.cpp:177-187 | every canonical code of length L is below 2^L |
| Huffman.FirstCodeStep | src/zip_preflight.cpp:178-182 | the 16-bit first-code arithmetic never cuts anything off |
| Huffman.LongerCodesAreLarger | src/zip_preflight.cpp:177-187 | a code of greater length starts above every extension of the shorter codes |
| Huffman.PrefixFree | src/zip_preflight.cpp:166-209 | for every accepted length vector no two symbols' codes can stand at the same place of any bit string |
| Huffman.SymbolAt | src/zip_preflight.cpp:199-209 | the symbol decoded at a position is `s` if and only if the code of `s` stands there |
| Huffman.Reverse | src/zip_preflight.cpp:188-192 | the reversed code is the number whose bits arrive in the order of the canonical code, most significant first |
| Huffman.CountLengths | src/zip_preflight.cpp:167-171 | counts the symbols of every length, or fails exactly when a length exceeds 15 |
| Huffman.Fits | src/zip_preflight.cpp:172-176 | true exactly when no prefix of the lengths is over-subscribed |
| Huffman.FirstCodes | src/zip_preflight.cpp:177-182 | gives the smallest canonical code of every length |
| Huffman.Table.Fill | src/zip_preflight.cpp:183-195 | one entry for each used symbol, with its length and reversed canonical code, and no other entry |
| Huffman.Table.Build | src/zip_preflight.cpp:166-197 | succeeds exactly on the accepted length vectors and then holds exactly their canonical code |
| Huffman.Table.Lookup | src/zip_preflight.cpp:205-206 | finds the symbol with the given length and bits, or shows that there is none |
| Huffman.Table.Decode | src/zip_preflight.cpp:199-209 | returns the one symbol whose code comes next and consumes exactly its length, or fails when no code comes next |
| Deflate.FixedAccepted | src/zip_preflight.cpp:260-269 | the lengths of fixed blocks are accepted and fill the code space completely |
| Inflater.ReadItem | src/zip_preflight.cpp:311-328 | reads one literal, copy or end of block exactly as the format spells it |
| Inflater.CopyBack | src/zip_preflight.cpp:330-331 | the byte-by-byte, possibly overlapping copy appends the periodic extension of the last `distance` bytes |
| Inflater.Emit | src/zip_preflight.cpp:313-331 | applies an element exactly when its distance reaches existing output and the result stays within `expected` |
| Inflater.ReadElements | src/zip_preflight.cpp:310-332 | decodes one block's elements onto the output; the output never exceeds `expected`, the unread bits decrease |
| Inflater.ReadOp | src/zip_preflight.cpp:237-253 | one code-length operation: a length, a repetition of the previous one, or a run of 3 to 10 or 11 to 138 zeros (what they stand for is fixed by `DeflateRuns.RunsRead`), refused when it overshoots or repeats nothing |
| Inflater.ReadLengths | src/zip_preflight.cpp:234-254 | spells out exactly the number of code lengths asked for |
| Inflater.ReadSent | src/zip_preflight.cpp:226-231 | places the code length code's lengths in the transmission order |
| Inflater.ReadTables | src/zip_preflight.cpp:232-257 | builds both tables, or refuses a header without an end-of-block code or with an unacceptable code |
| Inflater.DynamicTables | src/zip_preflight.cpp:216-258 | succeeds exactly on the bit strings that parse as a dynamic header, with the tables that header describes |
| Inflater.FixedTables | src/zip_preflight.cpp:260-269 | always succeeds, with the code lengths of section 3.2.6 of RFC 1951 |
| Inflater.ReadStored | src/zip_preflight.cpp:293-305 | copies a stored block whose length and complement agree and which fits |
| Inflater.ReadBody | src/zip_preflight.cpp:293-332 | decodes a stored, fixed or dynamic body and refuses the reserved type |
| Inflater.ReadBlock | src/zip_preflight.cpp:289-292 | reads the final bit, the type and the body |
| Inflater.InflateRaw | src/zip_preflight.cpp:271-335 | terminates on every input, never lets the output exceed `expected`, not even on failure, and returns exactly the specified result |
| InflateTheory.ElementExact | src/zip_preflight.cpp:311-328 | an element is decoded at a position if and only if its encoding stands there |
| InflateTheory.OpExact | src/zip_preflight.cpp:237-253 | the same for code-length operations |
| InflateTheory.SentExact | src/zip_preflight.cpp:226-231 | the same for the code length code's lengths |
| InflateTheory.HeaderComplete | src/zip_preflight.cpp:216-258 | every legal dynamic header is read, and gives its own code lengths |
| InflateTheory.HeaderSound | src/zip_preflight.cpp:216-258 | whatever is read as a dynamic header is the encoding of a legal one |
| InflateTheory.StoredComplete | src/zip_preflight.cpp:293-305 | every stored block is read, whatever its padding bits |
| InflateTheory.ElementsComplete | src/zip_preflight.cpp:310-332 | every legal list of elements is read back and expanded |
| InflateTheory.StreamSound | src/zip_preflight.cpp:288-333 | whatever decodes is the encoding of some legal list of blocks |
| InflateTheory.InflateExact | src/zip_preflight.cpp:271-335 | inflating succeeds with `out` if and only if the input is the encoding, in the grammar of section 3.2 of RFC 1951, of legal blocks that expand to `out`, `out` has the expected size and no input byte is left over |
| InflateTheory.DeflateRoundTrip | src/zip_preflight.cpp:271-335 | for every legal list of stored, fixed and dynamic blocks, decoding the encoding returns the LZ77 expansion |
| DeflateEncoder.ElementForMeans | src/zip_preflight.cpp:273-283 | every literal and every match of length 3 to 258 and distance 1 to 32768 has an encoding with exactly that meaning |
| DeflateEncoder.HeaderForMeans | src/zip_preflight.cpp:216-258 | every pair of acceptable code length vectors has a dynamic header that is read back as those vectors |
| DeflateEncoder.CompressRoundTrip | src/zip_preflight.cpp:271-335 | compressing any legal tokens in any split into stored, fixed and dynamic blocks and inflating returns their expansion |
| DeflateEncoder.EveryPayloadCompresses | src/zip_preflight.cpp:271-335 | every byte string is the expansion of some legal token list |
| DeflateRuns.RunsForSpell | src/zip_preflight.cpp:234-254 | every vector of code lengths is spelled by runs: single lengths, three to six repetitions, three to 138 zeros, sent with the symbols 16, 17 and 18 and with what exceeds the shortest run in 2, 3 and 7 bits |
| DeflateRuns.RunsRead | src/zip_preflight.cpp:234-254 | whatever runs are sent with an acceptable code, exactly the lengths they spell are read, and exactly their bits consumed |
| DeflateRuns.RunHeaderReads | src/zip_preflight.cpp:216-258 | every pair of codes announced by runs, however these are chosen and however many code length code lengths are left out, is read back as itself |
| DeflateRuns.AnyCodesByRuns | src/zip_preflight.cpp:216-258 | every pair of acceptable codes can be announced by runs |
| DeflateRuns.RunStreamInflates | src/zip_preflight.cpp:271-335 | a stream whose header was written by runs inflates to the expansion of its elements |
| DeflateExamples.LengthTable | src/zip_preflight.cpp:273-277 | the length codes cover 3 to 257 without gap or overlap, four to every number of extra bits from the ninth on, and 258 on its own |
| DeflateExamples.DistanceTable | src/zip_preflight.cpp:278-283 | the distance codes cover 1 to 32768 without gap or overlap, two to every number of extra bits from the fifth on |
| DeflateExamples.FixedCodes | src/zip_preflight.cpp:260-265 | the codes of fixed blocks are the four ranges of the table in section 3.2.6 of RFC 1951, most significant bit first |
| DeflateExamples.FixedDistanceCodes | src/zip_preflight.cpp:266-268 | the distance codes of fixed blocks are the symbols themselves in five bits |
| DeflateExamples.DynamicInflates | src/zip_preflight.cpp:271-335 | seventeen bytes of a compressor, one dynamic block with runs of 97, 138 and 19 zeros, inflate to twenty letters a and one b |
| DeflateExamples.FixedInflates | src/zip_preflight.cpp:271-335 | eleven bytes of a compressor, one fixed block with a copy that overlaps itself, inflate to the 21 bytes they were made from |
| DeflateExamples.StoredInflates | src/zip_preflight.cpp:293-305 | six bytes, one stored block, inflate to the byte they hold |
| Crc32.Compute | src/zip_preflight.cpp:67-75 | the loops compute the specified checksum |
| Crc32.UpdateIsDivision | src/zip_preflight.cpp:67-75 | byte-wise processing is the bit-wise division of the whole message by the polynomial |
| Crc32.ShiftInjective | src/zip_preflight.cpp:71-72 | the bit step loses no state |
| Crc32.BurstDetected | src/zip_preflight.cpp:67-75 | two messages that differ only within 32 consecutive bits have different checksums |
| Crc32.OneByteDetected | src/zip_preflight.cpp:67-75 | a message with one changed byte never keeps its checksum, whatever its length |
| Crc32.CheckValue | src/zip_preflight.cpp:67-75 | the checksum of the digits 1 to 9 is the published check value |
| Utf8.Scan | src/zip_preflight.cpp:80-99 | one character is accepted exactly as specified, with its length |
| Utf8.ValidUtf8 | src/zip_preflight.cpp:77-102 | accepts exactly the byte strings that decode |
| Utf8.FirstExact | src/zip_preflight.cpp:80-99 | a character is read if and only if its encoding (section 3 of RFC 3629) stands there and it is a nonzero scalar value |
| Utf8.DecodeExact | src/zip_preflight.cpp:77-102 | a byte string decodes to `ss` if and only if `ss` are nonzero, non-surrogate scalar values up to U+10FFFF and the string is their encoding |
| Utf8.TableExact | src/zip_preflight.cpp:80-99 | a character is accepted exactly by the byte ranges of section 4 of RFC 3629, zero excepted, and its value is made of the bits behind the marks |
| EntryNames.CanonicalName | src/zip_preflight.cpp:104-126 | the one-pass scan computes the canonical name, or refuses exactly the unsafe names |
| EntryNames.CanonicalIsConfined | src/zip_preflight.cpp:104-126 | a canonical name has no root, drive, backslash, control byte, empty part or dot part |
| EntryNames.CanonicalIdempotent | src/zip_preflight.cpp:104-126 | a canonical name is its own canonical name |
| EntryNames.DuplicatesExact | src/zip_preflight.cpp:471-473 | two names collide exactly when their non-empty parts agree up to ASCII case |
| EntryNames.PartsExact | src/zip_preflight.cpp:109-124 | the parts of a name are exactly the stretches between slashes, backslashes and its ends |
| EntryNames.SafeExact | src/zip_preflight.cpp:104-117 | a name is refused if and only if it is empty, begins with a slash or backslash, holds a byte below 0x20 or a colon, or has a part of one or two dots |
| EntryNames.LowerExact | src/zip_preflight.cpp:120-121 | exactly the capital letters A to Z become small, by the distance between a and A |
| EntryNames.UntidyName | src/zip_preflight.cpp:104-126 | a name with two separators of different kinds in a row and capital letters gets the canonical form one expects, byte by byte |
| ZipFormat.FindEnd | src/zip_preflight.cpp:337-347 | scans backwards to the last end record that closes the data |
| ZipFormat.EndExact | src/zip_preflight.cpp:337-347 | an end record is found exactly when one closes the data at all, and it is the last one; the 65,535-byte window misses none |
| ZipFormat.ParseZip64 | src/zip_preflight.cpp:375-405 | takes wide values from the first ZIP64 field, in its fixed order and only where the narrow value asks for one |
| ZipRecords.RecordExact | src/zip_preflight.cpp:451-468 | a directory record is parsed if and only if its bytes stand there, every field at its place, whatever the fields hold that are not looked at, and it ends within the directory |
| ZipRecords.PayloadExact | src/zip_preflight.cpp:508-533 | a payload is accepted if and only if it lies before the directory, right behind a local header that repeats flags, method and name of the record and, without a data descriptor, its checksum and sizes, wide or not |
| ZipWide.WideRoundTrip | src/zip_preflight.cpp:375-405 | behind any fields of other kinds, the ZIP64 field gives back exactly the sizes, offset and disk that were moved into it |
| ZipWide.ExtraReads | src/zip_preflight.cpp:375-405 | the extra bytes of a record give back its sizes and offset, whichever of them were moved out of their 32-bit places |
| ZipWide.WideDirectoryReads | src/zip_preflight.cpp:349-373 | behind any front, the ZIP64 end record, locator and short end record give back the directory written into them |
| ZipWide.SignedDescriptorReads | src/zip_preflight.cpp:551-565 | a data descriptor with its signature that repeats checksum and sizes is always accepted, in 32 and 64 bits |
| ZipWide.UnsignedDescriptorExact | src/zip_preflight.cpp:551-565 | without its signature it is accepted if and only if its checksum is not the signature, or both sizes and the word behind it repeat the signature too; in 32 and 64 bits |
| ZipWide.UnsignedWideExact | src/zip_preflight.cpp:551-565 | in 64 bits no size that an input can hold repeats the signature, so there the checksum alone decides |
| ZipExact.DescriptorExact | src/zip_preflight.cpp:551-565 | a data descriptor is accepted if and only if it stands there with its signature, or without it and its checksum is not taken for the signature |
| ZipExact.DirectoryExact | src/zip_preflight.cpp:349-373 | a directory is located if and only if the end record names one on a single disk, by its short numbers unless one is all ones, and then by the ZIP64 record |
| ZipExact.Zip64Exact | src/zip_preflight.cpp:356-373 | the ZIP64 record is taken if and only if it stands, with an extension of any kind, right before its locator and that right before the end record |
| ZipExact.EndAtExact | src/zip_preflight.cpp:337-347 | an end record stands at a place if and only if its signature, sixteen bytes of numbers, a length and exactly a comment of that length end the data there |
| ZipExact.ExtraExact | src/zip_preflight.cpp:375-405 | extra bytes give sizes, offset and disk if and only if they begin with whole fields and either nothing asks for a wide value and no ZIP64 field follows, or the first ZIP64 field begins with exactly the values asked for |
| ZipSample.SampleIsWritten | src/zip_preflight.cpp:427-591 | the 115 bytes of an archive as an ordinary program writes it are the reference writer's, header by header |
| ZipSample.SampleSummary | src/zip_preflight.cpp:427-591 | the whole summary of that archive, under any budget that admits it: one entry of nine bytes, inspected, and an escaping name as the only finding |
| Crc32.SignatureIsChecksum | src/zip_preflight.cpp:67-75 | the bytes AC 0A 7A D5 have the descriptor signature as their checksum |
| ZipExamples.DescriptorMistaken | src/zip_preflight.cpp:551-565 | an archive of one stored file of those bytes, correct in every field: without the signature it is reported as malformed with a header mismatch, with the signature neither is reported |
| ZipWriter.CentralReads | src/zip_preflight.cpp:451-468 | every field of a written directory record is read back from where it was put |
| ZipWriter.UnitReads | src/zip_preflight.cpp:508-534 | the local header of a written entry agrees with its record, and the payload found is the one written |
| ZipWriter.TailReads | src/zip_preflight.cpp:551-565 | a written data descriptor is accepted exactly unless it lacks its signature and its checksum equals it |
| ZipReadBack.EndReads | src/zip_preflight.cpp:337-373 | the end record of a written archive, short or ZIP64, is found and gives its directory |
| ZipWriter.ExamineReads | src/zip_preflight.cpp:479-587 | a written entry within the budget is decoded to the content that was written, and the content is entered next |
| ZipReadBack.WalkReads | src/zip_preflight.cpp:450-590 | the walk reads all written entries in order, with everything nested inside them, ends exactly at the end of the directory and leaves exactly the budget they do not use |
| ZipReadBack.EnterReads | src/zip_preflight.cpp:573-586 | a plain file is not entered, a nested archive is read back one level deeper |
| ZipReadBack.WrittenArchiveReadsBack | src/zip_preflight.cpp:427-591 | every written archive within the budget is inspected completely, archives inside archives included: record and content of each entry are the written ones, in 32 and 64 bits, with extra fields, comments and data descriptors; exactly its entries and bytes are counted; besides what names and contents show, exactly the nested archives and the mistaken descriptors are reported |
| ZipExamples.StoredIsWritable | src/zip_preflight.cpp:427-591 | every file of less than two gigabytes, and every written archive of that size, can be an entry of such an archive |
| ZipReadBack.CompressedEncodes | src/zip_preflight.cpp:539-542 | every output of the reference compressor may be stored as a deflated entry of such an archive |
| ZipWalk.Enters | src/zip_preflight.cpp:573-586 | content that is an archive is inspected one level deeper on the same budget and merged, or reported as too deep |
| ZipWalk.CheckRecord | src/zip_preflight.cpp:497-507 | raises exactly the flags a record shows before it is opened |
| ZipWalk.CheckName | src/zip_preflight.cpp:469-473 | raises exactly the flags a name shows (which ones is fixed by `ZipFindings.PathEscapeExact` and `ZipFindings.DuplicateNameExact`) and remembers its canonical form |
| ZipWalk.Decode | src/zip_preflight.cpp:534-542 | decodes stored and deflated content that is not encrypted, and nothing else |
| ZipWalk.CheckContent | src/zip_preflight.cpp:550-572 | raises exactly the flags a decoded content shows |
| ZipWalk.ExamineEntry | src/zip_preflight.cpp:479-587 | counts one record, in 32 bits as the source does, charges the shared budget and adds exactly its contribution to the summary |
| ZipWalk.WalkRecords | src/zip_preflight.cpp:447-590 | visits the directory's records in order; summary and budget are those of the specified walk |
| ZipWalk.InspectImpl | src/zip_preflight.cpp:427-591 | the recursive inspection returns the summary of its report tree and leaves the specified budget; it terminates |
| ZipWalk.InspectDeep | src/zip_preflight.cpp:595-605 | refuses exactly the invalid arguments and otherwise inspects on a fresh budget; what its findings mean is `ZipFindings.FindingsExact` |
| ZipTheory.RatioExact | src/zip_preflight.cpp:485-488 | the quotient and remainder test is exactly `u > ratio * c`, without overflow |
| ZipTheory.InspectAccounted | src/zip_preflight.cpp:427-591 | for every input, budget and starting point: counters and decoded bytes equal the growth of the shared budget, the byte budget is never exceeded, depth stays within its maximum, and of the records counted no more are inspected than the entry limit lets through when their number is compared modulo 2^32 |
| ZipTheory.EntriesPaidFor | src/zip_preflight.cpp:450-480 | 47 times the number of entries of the whole tree is at most the input size plus the bytes expanded |
| ZipTheory.InspectionBounded | src/zip_preflight.cpp:427-591 | the same for a whole inspection, for every input and budget: the 32-bit counters hold the true numbers modulo 2^32, and every decoded entry at every level keeps the size and expansion limits |
| ZipTheory.CountersFit | src/zip_preflight.cpp:479-480 | while the byte budget is at most 128 GiB the 32-bit counters hold the true numbers and at most the maximum number of entries is inspected |
| ZipClean.NoFindingLost | src/zip_preflight.cpp:407-425 | everything found in a nested archive, however deep, is in the outermost summary |
| ZipClean.InspectClean | src/zip_preflight.cpp:427-591 | a clean nested result was inspected completely, at any depth and on any budget |
| ZipClean.CleanMeansInspected | src/zip_preflight.cpp:427-591 | without malformed, bomb-risk, unsupported-compression and checksum findings, at every level the directory is tiled by its declared number of records and every content was decoded with the declared size and checksum |
| ZipClean.DuplicatesFound | src/zip_preflight.cpp:471-473 | a record is called a duplicate exactly when an earlier name of its directory has the same canonical form |
| ZipFindings.FindingsExact | src/zip_preflight.cpp:427-591 | each of the twelve findings is in the summary if and only if the data of the archive, or of an archive entered inside it at any depth, gives rise to it: stated on the bytes, the flag masks and what was left of the budget |
| ZipFindings.PathEscapeExact | src/zip_preflight.cpp:471-472 | path escape: some record at some level, one that cannot be visited included, has a name that is not safe |
| ZipFindings.DuplicateNameExact | src/zip_preflight.cpp:471-473 | duplicate name: two records of one directory, ones that cannot be visited included, have the same parts up to the case of letters |
| ZipFindings.EncryptedEntryExact | src/zip_preflight.cpp:489-500 | encrypted entry: some record within the budget at some level has a flag of the mask 0x2041 |
| ZipFindings.HeaderMismatchExact | src/zip_preflight.cpp:508-565 | header mismatch: some record within the budget has no payload behind an agreeing local header, or a data descriptor that fails |
| ZipFindings.BudgetExhaustedExact | src/zip_preflight.cpp:433-582 | budget exhausted: a directory declares too many records, a record exceeds what was left of the budget, or an archive lies too deep |
| ZipFindings.WithinInspected | src/zip_preflight.cpp:573-586 | what is reported of an archive at any depth is what inspecting its bytes there, on what was left of the budget, reports |
| ZipFindings.InnerExact | src/zip_preflight.cpp:573-586 | the content of a record is entered if and only if it is within the budget, can be unpacked, begins or is named like an archive, and the depth is not used up |
| ZipFindings.WalkLists | src/zip_preflight.cpp:450-477 | the walk reaches exactly the records that stand one behind the other, up to the declared number and the first that cannot be visited, and ends well exactly if they fill the directory |
| ZipFindings.NamesExact | src/zip_preflight.cpp:128-133 | a name counts as a program, as active content or as an archive exactly if it ends in one of the listed extensions |
| ZipFindings.DecodedExact | src/zip_preflight.cpp:489-549 | a record is decoded if and only if it is within the budget and can be unpacked, and then to what it unpacks to |
| ZipFindings.CountersExact | src/zip_preflight.cpp:479-549 | exactly the records reached at any level are counted as entries and those decoded as inspected, in 32 bits, and exactly their bytes are charged |
| ZipFindings.DepthExact | src/zip_preflight.cpp:410 | the reported depth is the greatest at which an archive was entered |
| ZipClean.TotalBytesExact | src/zip_preflight.cpp:481-484 | over any tree the reported byte total is the true sum exactly when the true sum fits into 64 bits |
| ZipClean.FlatTotalSaturates | src/zip_preflight.cpp:481-484 | without nested archives the total saturates at the largest 64-bit value |
| ZipExamples.NestedTotalWraps | src/zip_preflight.cpp:411-412 | a stored archive whose one record declares 2^64 - 1 packed bytes, inspected on any budget that reaches it: the reported total is 80 while the records declare 2^64 + 80 |
| Sha256.Expand | src/sha256.cpp:42-49 | the schedule array holds the message schedule of section 6.2.2 of FIPS 180-4 |
| Sha256.Process | src/sha256.cpp:41-82 | one chunk is compressed into the hash value by 64 rounds on eight working variables |
| Sha256.StoreLength | src/sha256.cpp:99-102 | the last eight bytes of the block become the message length in bits, most significant first, the rest stays |
| Sha256.Finish | src/sha256.cpp:90-103 | the one or two tail blocks equal the last blocks of the padded message, for every tail length |
| Sha256.Compute | src/sha256.cpp:35-110 | the streaming hash equals the fold of compression over the padded message, for every message; what that fold yields is fixed by `Sha256Examples` |
| Sha256.PaddedLength | src/sha256.cpp:90-103 | padding always fills whole blocks |
| Sha256.ZeroCountLeast | src/sha256.cpp:90-103 | no smaller number of zero bytes would |
| Sha256.ConstantTimeEqual | src/sha256.cpp:116-122 | accumulating all differences decides equality |
| Sha256Constants.RoundConstantsAreRoots | src/sha256.cpp:11-19 | every round constant is the first 32 fractional bits of the cube root of its prime (section 4.2.2 of FIPS 180-4) |
| Sha256Constants.TableIsFirstPrimes | src/sha256.cpp:11-19 | the primes of these roots are exactly the first 64, in order |
| Sha256Constants.InitialValuesAreRoots | src/sha256.cpp:36-37 | every initial value is the first 32 fractional bits of the square root of its prime (section 5.3.3) |
| Sha256Examples.AbcDigest | src/sha256.cpp:35-110 | the digest of abc is the published one |
| Sha256Examples.LettersDigest | src/sha256.cpp:35-110 | the digest of the 56 letters whose padding takes two blocks is the published one |
| Bytes.AppendScalar | src/audit.cpp:12-18 | appends a number's low-order bytes, least significant first |
| Bytes.ReadScalar | src/audit.cpp:43-53 | reads back the number whose bytes stand there |
| AuditChain.HashRecord | src/audit.cpp:69-86 | hashes the record's encoding, without its correlation when that is all zero |
| AuditChain.HashSegment | src/audit.cpp:88-97 | hashes the previous hash and the record hashes in order |
| AuditChain.Chain.Append | src/audit.cpp:110-124 | adds a linked segment for the next record in sequence and changes nothing otherwise |
| AuditChain.Chain.Verify | src/audit.cpp:152-167 | succeeds exactly on chains numbered from one in which every segment names its predecessor's hash and carries the right hash |
| AuditChain.Chain.TakeCheckpoint | src/audit.cpp:126-135 | gives a checkpoint that matches the chain, with the signer given, unless it is empty |
| AuditChain.Chain.VerifyCheckpoint | src/audit.cpp:137-150 | succeeds exactly on the checkpoints that match |
| AuditChain.AppendKeepsVerified | src/audit.cpp:110-124 | appending keeps a verifying chain verifying |
| AuditChain.EveryRunVerifies | src/audit.cpp:110-167 | whatever records are offered in whatever order, the chain that results verifies |
| AuditChain.RecordBytesInjective | src/audit.cpp:69-86 | different records have different encodings, although the correlation may be left out |
| AuditChain.SegmentBinds | src/audit.cpp:88-97 | equal segment hashes mean equal previous hashes and records, or a collision is exhibited |
| AuditChain.HashBindsHistory | src/audit.cpp:152-167 | equal hashes at the same place of two verifying chains mean equal histories, or a collision is exhibited |
| AuditChain.CheckpointBindsChain | src/audit.cpp:137-167 | two chains that verify and match the same checkpoint are equal in every record and hash, or two different byte strings with the same hash are exhibited |
| AuditChain.TamperingShows | src/audit.cpp:152-167 | a changed chain that keeps the last hash fails verification, or a collision is exhibited |
| AuditChain.CheckpointBindsSha256Chain | src/audit.cpp:137-167 | the same for SHA-256 as specified, with no assumption about it |
| AuditChain.CheckpointHashBinds | src/audit.cpp:99-108 | two checkpoints that match some chain each and have the same hash agree in sequence, root and signer, or a collision is exhibited |
| AuditChain.ChangedCheckpointRefused | src/audit.cpp:137-150 | a checkpoint changed in any field but its hash is refused by every chain, or a collision is exhibited |
| AuditChain.ChangedSha256CheckpointRefused | src/audit.cpp:137-150 | the same for SHA-256 as specified |
| AuditChain.VerifiedStarts | src/audit.cpp:152-156 | a verifying chain begins with number one and 32 zero bytes as its previous hash |
| AuditChain.RecordLayout | src/audit.cpp:69-86 | where each field of a record lies among the bytes that are hashed |
| AuditChain.SegmentLayout | src/audit.cpp:88-97 | where the previous hash and each record hash lie among the bytes that are hashed |
| AuditChain.CheckpointLayout | src/audit.cpp:99-108 | where sequence, root and signer lie among the bytes that are hashed |
| AuditCodec.SerializeRecord | src/audit.cpp:184-196 | writes the 124 bytes of a record |
| AuditCodec.SerializeSegment | src/audit.cpp:178-197 | writes a segment's header and records |
| AuditCodec.Serialize | src/audit.cpp:169-200 | writes the whole export |
| AuditCodec.Cursor.ReadU64 | src/audit.cpp:43-53 | reads eight bytes or refuses without moving |
| AuditCodec.Cursor.ReadU32 | src/audit.cpp:31-41 | reads four bytes or refuses without moving |
| AuditCodec.Cursor.ReadDigest | src/audit.cpp:55-65 | reads 32 bytes or refuses without moving |
| AuditCodec.ReadRecord | src/audit.cpp:234-256 | reads one record exactly when 124 bytes are left |
| AuditCodec.ReadRecords | src/audit.cpp:233-257 | reads exactly `count` records or fails |
| AuditCodec.ReadSegment | src/audit.cpp:221-232 | reads one segment, refusing more than 4096 records |
| AuditCodec.ReadSegments | src/audit.cpp:220-259 | reads the segments onto an empty chain |
| AuditCodec.CheckMagic | src/audit.cpp:210-211 | compares the eight magic bytes |
| AuditCodec.Deserialize | src/audit.cpp:202-268 | malformed exactly when the bytes do not parse, unverified exactly when they parse to a chain that does not verify; what is handed out verifies |
| AuditCodec.RecordsExact | src/audit.cpp:233-257 | records parse to `rs` if and only if the writer's bytes of `rs` stand there |
| AuditCodec.SegmentExact | src/audit.cpp:220-259 | the same for a segment within the size limit |
| AuditCodec.ParseExact | src/audit.cpp:169-268 | bytes parse to `ss` if and only if they are exactly what the writer produces for `ss` and the size limits hold: reader and writer are inverse on both sides |
| AuditCodec.ExportRoundTrip | src/audit.cpp:169-268 | exporting and reading back restores a verifying chain exactly when it is within the size limits |
| AuditCodec.ChainLayout | src/audit.cpp:169-177 | the export begins with AISHAD02 and the number of segments |
| AuditCodec.SegmentWireLayout | src/audit.cpp:178-183 | where the fields of an exported segment lie |
| AuditCodec.RecordWireLayout | src/audit.cpp:183-197 | an exported record is laid out as it is hashed, with its correlation in any case |
| CausalGraph.Graph.FindNode | src/causal_graph.cpp:7-14 | finds a node with the identifier or shows there is none |
| CausalGraph.Graph.AddNode | src/causal_graph.cpp:16-22 | adds a node exactly when its identifier is nonzero and new |
| CausalGraph.Graph.AddEdge | src/causal_graph.cpp:24-30 | adds an edge exactly between two different existing nodes |
| CausalGraph.Graph.FindParent | src/causal_graph.cpp:40-46 | the source of the first edge into a node |
| CausalGraph.Graph.ChainTo | src/causal_graph.cpp:32-61 | terminates; not found exactly without the node; a chain exactly when the first-parent walk reaches a parentless node, from that root down, no node twice, each the first parent of the next; integrity failure exactly when the walk enters a cycle |
| CausalGraph.Reverse | src/causal_graph.cpp:59 | reverses the walk |
| CausalGraph.ParentIsEdge | src/causal_graph.cpp:40-46 | a parent exists exactly when an edge ends at the node, and comes from the first such edge |
| CausalGraph.CycleNeverEnds | src/causal_graph.cpp:39-58 | a walk that repeats a node never reaches a root |
| CausalGraph.WalkTooLong | src/causal_graph.cpp:54-56 | a walk longer than the number of nodes has entered a cycle |
| CausalGraph.RootOrCycle | src/causal_graph.cpp:32-61 | on every graph the operations can build, exactly one of reaching a root and entering a cycle happens |
| FlowControl.TokenBucket.Consume | src/flow_control.cpp:15-36 | level and verdict follow the specified step, with the 64-bit and 32-bit wrap-arounds of the source |
| FlowControl.TokensCapped | src/flow_control.cpp:29 | no run leaves more tokens than the capacity |
| FlowControl.RateBound | src/flow_control.cpp:15-36 | over any run of a fresh bucket, calls in any order and whatever wraps, the total granted is at most capacity + floor(rate * (latest - earliest) / 10^9) |
| FlowControl.WindowBound | src/flow_control.cpp:15-36 | the same on any window of a run with a clock that does not go back, with less than one token more |
| FlowControl.CreditExact | src/flow_control.cpp:27-28 | the credit is the nominal one exactly when the product fits 64 bits or its remainder alone already reaches the capacity |
| FlowControl.HalfIsCredited | src/flow_control.cpp:25-32 | while nothing is cut off, at least half of what time nominally earns up to the last refill is credited |
| FlowControl.PausesAreFreeExactly | src/flow_control.cpp:29 | a pause never costs tokens, over all runs, exactly for capacities below 2^31; from there the 32-bit sum wraps |
| FlowControl.IdleLoses | src/flow_control.cpp:29 | a full bucket of such a capacity that loses tokens by being left idle |
| FlowControl.RefillExact | src/flow_control.cpp:20-32 | while nothing wraps, a refill adds exactly the whole tokens earned, up to the capacity, moves the clock only if there is one, and starts it at the first time seen |
| FlowControl.GrantedExactly | src/flow_control.cpp:15-36 | a call is granted and paid for if and only if it asks for no more than is there after the refill; invalid ones change nothing |
| FlowControl.KeptTokensSuffice | src/flow_control.cpp:25-36 | for capacities below 2^31 whatever the tokens kept so far pay for is granted at any time |
| UdpSessions.UdpSessionLimiter.Prune | src/flow_control.cpp:42-48 | drops exactly the sessions idle for longer than the timeout |
| UdpSessions.UdpSessionLimiter.Admit | src/flow_control.cpp:41-60 | refreshes a known key, admits a new one exactly while there is room; keys stay distinct and within the limit |
| UdpSessions.NeverOverfull | src/flow_control.cpp:55-57 | no run takes the table over its limit |
| UdpSessions.LiveSessionNeverRefused | src/flow_control.cpp:41-60 | an admitted session that speaks again within the timeout is never refused, whatever calls came between |
| UdpSessions.FewKeysPerTimeout | src/flow_control.cpp:41-60 | within any stretch of one timeout at most the maximum number of different keys gets through |
| UdpSessions.AdmitExact | src/flow_control.cpp:41-60 | a key is admitted if and only if it was heard within the timeout or fewer keys than the maximum were; then it is heard now, every other key is dropped exactly if its timeout has passed, and nothing else changes |
| RuntimeCodec.Serialize | platform/windows/security/secure_runtime_state.cpp:33-43 | writes the 104 bytes of a state |
| RuntimeCodec.Deserialize | platform/windows/security/secure_runtime_state.cpp:45-59 | reads them, telling malformed from unsound bytes |
| RuntimeCodec.ParseExact | platform/windows/security/secure_runtime_state.cpp:33-59 | bytes parse to a state if and only if they are its encoding and its generation and model version are nonzero |
| RuntimeCodec.FailsExactly | platform/windows/security/secure_runtime_state.cpp:33-59 | bytes that are no state's encoding are malformed, those of a state whose generation or model version is zero are unsound, and no others |
| RuntimeCodec.WireFields | platform/windows/security/secure_runtime_state.cpp:33-43 | behind AISHRT02, where each field of the state lies |
| RuntimeStore.SecureRuntimeStore.ReadProtected | platform/windows/security/secure_runtime_state.cpp:88-101 | a file's state, if it decrypts and parses |
| RuntimeStore.SecureRuntimeStore.CopyToRecovery | platform/windows/security/secure_runtime_state.cpp:127 | leaves the recovery file old, torn or whole, and whole if it is reported done |
| RuntimeStore.SecureRuntimeStore.AtomicWrite | platform/windows/security/secure_runtime_state.cpp:70-81 | through a temporary file that is created, filled and renamed, each step refused or cut short as it may: the primary holds what it held or all the new bytes, the new ones if done, the old ones if refused |
| RuntimeStore.SecureRuntimeStore.Save | platform/windows/security/secure_runtime_state.cpp:115-134 | the primary changes only after it was copied as a whole, whatever step fails or is cut short; the first step that is not done decides what is reported |
| RuntimeStore.SecureRuntimeStore.Load | platform/windows/security/secure_runtime_state.cpp:87-113 | a readable primary is left alone, an unreadable one is replaced from a readable recovery copy, which is never touched; success is reported exactly if the removal and the save it takes are done |
| RuntimeStore.SecureRuntimeStore.LoadOrCreate | platform/windows/security/secure_runtime_state.cpp:136-158 | returns the stored state, creates one only on an unused store, refuses unreadable files unchanged; a legacy key is removed only once the new store holds it, and survives exactly if its removal does not take effect; success, refusal and crash are reported exactly as the first step not done has it |
| RuntimeStore.SecureRuntimeStore.UpdateVersions | platform/windows/security/secure_runtime_state.cpp:160-170 | the files hold the old or the new state, the new one, with both keys kept, for certain on success, which is reported exactly if the open and the save are done and no version goes back; a version of zero is an invalid argument |
| RuntimeStore.SecureRuntimeStore.RotateKey | platform/windows/security/secure_runtime_state.cpp:172-181 | the same for a new key and the next generation: on success the new key is in use and the one before it is the previous key, which is reported exactly if the open and the save are done, a generation is left and a key was drawn |
| RuntimeStore.StepKeeps | platform/windows/security/secure_runtime_state.cpp:87-181 | from a readable store every operation, failing or cut short anywhere, leads to the same state or the requested one |
| RuntimeStore.NeverGoesBack | platform/windows/security/secure_runtime_state.cpp:87-181 | over runs of the store's own operations a readable store stays readable and generation and versions never decrease |
| RuntimeStore.LegacyExact | platform/windows/security/secure_runtime_state.cpp:140-157 | over any run of a new store a legacy key file is there at any later time if and only if it was there when the store could first be read, and then the step that made it readable did not report success |
| RuntimeStore.LegacyOutlives | platform/windows/security/secure_runtime_state.cpp:152-157 | when its removal is refused or never reached, the store opens from then on and the key file stays |
| RuntimeStore.RunsStayIntact | platform/windows/security/secure_runtime_state.cpp:136-181 | over any run of a new store, either nothing is stored or the stored state names the generation its key replaced |
| RuntimeStore.CrashConsistent | platform/windows/security/secure_runtime_state.cpp:87-181 | after a change that was completed, refused or cut short, the next successful open returns the old or the requested state; the requested one after success, the old one after refusal |
| RuntimeStore.AllowedExactly | platform/windows/security/secure_runtime_state.cpp:160-181 | a change is allowed exactly if no version goes back, or if a generation is left and a random key was delivered |
| RuntimeStore.RotationInstalls | platform/windows/security/secure_runtime_state.cpp:172-181 | a rotation that succeeds stores the new key, the key and generation before it as the previous ones, and the same versions |
| RuntimeStore.UpdateSets | platform/windows/security/secure_runtime_state.cpp:160-170 | an update that succeeds stores exactly the versions asked for and keeps both keys and generations |
| RuntimeStore.StepFollows | platform/windows/security/secure_runtime_state.cpp:87-181 | what one step stores is the state before it, or an update or rotation of it; a new store begins with the key of the old key file or a random one |
| RuntimeStore.GenerationsKeepKeys | platform/windows/security/secure_runtime_state.cpp:87-181 | over any run the keys of a generation never change |
| RuntimeStore.PreviousKeyWasInUse | platform/windows/security/secure_runtime_state.cpp:136-181 | over any run of a new store the stored previous key is the channel key that an earlier readable disk held at the previous generation, or the one with which a single step both created the store and rotated its key; it is all zero before the first rotation |
| RuntimeStore.OneCopyIsEnough | platform/windows/security/secure_runtime_state.cpp:115-134 | after a successful change either copy alone is enough: the primary for the new state, the recovery copy for the one before |
| RuntimeStore.GarbageNeverReplacesRecovery | platform/windows/security/secure_runtime_state.cpp:87-134 | on any disk, a readable recovery copy is overwritten only while the primary can be read |
| Ransomware.Detector.constructor | src/ransomware.cpp:8-16 | raises zero thresholds to one and orders and caps the scores |
| Ransomware.Detector.Observe | src/ransomware.cpp:18-76 | prunes and extends the process's window, leaves all others, and returns the verdict of that window; ignores observations without process or time |
| Ransomware.Detector.Reset | src/ransomware.cpp:78 | drops exactly one process's window |
| Ransomware.Erase | src/ransomware.cpp:21-24 | keeps exactly the observations inside the window, in order |
| Ransomware.Tallied | src/ransomware.cpp:27-44 | counts writes, destructive operations and distinct objects modulo 2^32 and collects the four flags |
| Ransomware.Judged | src/ransomware.cpp:45-75 | scores and grades a tally |
| RansomwareTheory.WindowOfHistory | src/ransomware.cpp:20-25 | over any run of observations and resets, a process's window depends on its own history alone |
| RansomwareTheory.OthersDoNotMatter | src/ransomware.cpp:18-76 | two runs that agree on a process's history give its next observation the same verdict |
| RansomwareTheory.WindowIsSurvivors | src/ransomware.cpp:21-25 | after any history, timestamps in any order, the window is what no later observation pruned |
| RansomwareTheory.WindowIsRecentExactly | src/ransomware.cpp:21-25 | the window equals the full history cut to the last window exactly when no timestamp in between has pruned what that window covers |
| RansomwareTheory.OrderedLosesNothing | src/ransomware.cpp:21-25 | a clock that does not go back satisfies that condition |
| RansomwareTheory.VerdictFromFullHistory | src/ransomware.cpp:18-76 | with such a clock every verdict is the one drawn from the full history since the last reset, cut to the window |
| RansomwareTheory.ClockSetBackForgets | src/ransomware.cpp:22-24 | three timestamps 10, 9, 10 are enough to lose an observation the window covers |
| RansomwareTheory.VerdictMonotone | src/ransomware.cpp:45-75 | more evidence or less trust never lowers score, severity, incident or containment |
| RansomwareTheory.VerdictBounds | src/ransomware.cpp:45-75 | the score is at most 100; recovery tampering is always contained; a canary is when containment needs at most 90; a trusted process touching neither is never contained and scores at most 75 |
| RansomwareTheory.ReasonBitsExact | src/ransomware.cpp:45-68 | every bit of the reason mask says exactly its own condition |
| RansomwareTheory.ShippedDecisions | src/ransomware.cpp:45-74 | under the shipped thresholds, which indicators together make a process suspicious or confirmed, exactly, for trusted and untrusted processes |
| RansomwareTheory.TallyExact | src/ransomware.cpp:27-44 | what the counters count, by kind of observation: a truncation is both a write and destructive, only named objects are told apart |
| RansomwareTheory.InWindowExact | src/ransomware.cpp:21-24 | the window reaches back by its length and no further, and holds nothing later than its end |
| RansomwareTheory.ScramblesExact | src/ransomware.cpp:38-39 | entropy counts as rising if it rises at all and by at least the threshold |
| RansomwareTheory.IgnoredExactly | src/ransomware.cpp:19 | an observation without process or time changes nothing and gets the empty verdict; every other one is judged with its window |
| RansomwareTheory.ScoreFromReasons | src/ransomware.cpp:45-75 | the score is given by the reasons in a table of sixteen values, by canary, tampering and trust; the severity by the score |
| FleetQueue.StoreForwardQueue.FindVictim | src/fleet_telemetry.cpp:52-57 | the batch to give up |
| FleetQueue.VictimExact | src/fleet_telemetry.cpp:52-57 | it is the oldest of the least urgent, and exists exactly when some batch is not urgent |
| FleetQueue.StoreForwardQueue.Push | src/fleet_telemetry.cpp:47-68 | a push keeps sequences strictly increasing and the size within capacity |
| FleetQueue.StoreForwardQueue.Acknowledge | src/fleet_telemetry.cpp:70-77 | an acknowledgement keeps the order of what is left |
| FleetQueue.RemovedIsCoveredPrefix | src/fleet_telemetry.cpp:70-77 | an acknowledgement removes a prefix: exactly the batches it covers |
| FleetQueue.RunsBalance | src/fleet_telemetry.cpp:47-77 | over any run the queue is ordered and within capacity, accepted = pending + evicted + acknowledged as multisets, nothing urgent is evicted, and the drop counter counts evictions and refusals |
| FleetQueue.UrgentStays | src/fleet_telemetry.cpp:47-77 | a critical or response batch leaves the queue only through an acknowledgement that covers it |
| FleetQueue.RefusedExactly | src/fleet_telemetry.cpp:51-65 | a push is refused for want of room exactly when every batch it could replace is urgent or more urgent than it |
| FleetQueue.PushExact | src/fleet_telemetry.cpp:47-68 | what a push does to the queue, the drop counter and its status in every case |
| FleetQueue.AcknowledgeExact | src/fleet_telemetry.cpp:70-77 | an acknowledgement succeeds if and only if it covers some batch, is not found if it covers none and invalid for zero; otherwise nothing changes |
| FleetQueue.ReplayExactly | src/fleet_telemetry.cpp:49-50 | a sequence number at or below the last accepted one is taken again exactly when nothing is pending |
| FleetQueue.ReplayTaken | src/fleet_telemetry.cpp:47-77 | the run push 5, acknowledge 5, push 3 accepts both batches |

## Left out

- Kernel drivers, broker, services, user interface and the other parsers and gates: Windows plumbing or shallower checks.
- `file_preflight::inspect` and its pattern tables: an uninterpreted function here; the conversion of names to wide strings
  goes with it.
- `evidence_from` and `preflight` of the ZIP inspector: one reading of their branches settles them.
- Memory: allocation failures (and the out-of-budget result that stands for them), `reserve` and the cost of the scans.
- What a failed decoding leaves in its output buffer: the inspector does not look at it. Only its size is bounded.
- Timing of `constant_time_equal`: only its result is modelled.
- ZipReadBack.WrittenArchiveReadsBack: the writer writes no comment in the end record and no disk numbers; entries with
  unsupported flags or methods have no content to read back.
- AuditChain.CheckpointBindsChain: chains of fewer than 2^64 segments, because sequence numbers count modulo 2^64.
- Huffman.Table.Build: code length vectors of fewer than 65,536 symbols, because the counters are 16 bits wide; the
  decoder never passes more than 320.
- RuntimeStore.NeverGoesBack: damage to the files from outside is not a step of a run; what one damaged copy costs is
  `RuntimeStore.OneCopyIsEnough`. Failing existence queries are not modelled.
- RuntimeStore.SecureRuntimeStore.Save: creation of the directory and wiping of buffers have no counterpart.
- RuntimeStore.SecureRuntimeStore.AtomicWrite: sizes beyond the limit of one write call, which 104 bytes never reach.
- `RedirectTracker` of the flow limits: a counter per flow.
- `validate` and `hash` of the telemetry batches: a list of comparisons.
- Concurrency: none of the modelled components synchronises; callers are assumed to serialise access.
