# Verified models of mudband's core algorithms

A Dafny 4.11 model of the algorithmic cores of the mudband VPN client and of the libraries it
carries, with proofs of what they are for:

- **DEFLATE** (`lib/libgz`): Huffman tree construction with length limiting, canonical codes,
  run-length coding of code lengths, the 16-bit bit buffer, the two-level decoding tables, the
  resumable `inflate` state machine with its circular window, and `inflate_fast`. The main
  theorems: code lengths are complete, within the limit and, unless the limit cut them, optimal,
  so that no codes give a shorter block; `inflate` agrees with a one-shot reference decoder
  however its input and output are split; and it undoes the block coder. What the fields and
  tables of the format mean is stated once more in closed form.
- **WireGuard sessions** (`bin/mudband/common/wireguard.c`): the Noise IKpsk2 handshake, where
  honest runs agree and accepted runs agreed; the rotation of session keypairs; and the
  anti-replay window.
- **The timer wheel** (`bin/mudband/common/callout.c`), refining a plain schedule.
- **The BPF validator and interpreter** (`bin/mudband/common/mudband_bpf.c`): what is accepted
  runs safely and returns, and every instruction computes what the fields of its code say.
- **Checksums** (`lib/libgz/crc32.c`, `lib/libgz/adler32.c`).
- **Jansson** (`lib/libjansson`): the hash table refines a map; the loader accepts exactly the
  JSON grammar, with the value that is written; parsing undoes dumping.
- **Argument rotation** (`lib/libmud/vopt.c`).

Code that changes things in place is modelled by classes, arrays and loops, each proved against
a specification function or predicate; what the source promises is then proved of the
specification. `dafny verify dfyconfig.toml` checks everything. Integers are unbounded except
where the source's width matters (the 16-bit bit buffer and code words, 32-bit BPF registers and
checksums, 64-bit counters, the 32-bit replay distance); there the wrap-around or truncation is
written out, or proved not to happen.

## Layout

| file | content |
|---|---|
| `common.dfy`, `bits.dfy` | options, word sizes; shifts, masks, bit reversal, sums |
| `canonical.dfy`, `optimality.dfy` | canonical prefix codes; why joining the two least frequent nodes is optimal |
| `format.dfy` | the constants of RFC 1951 in closed form |
| `trees.dfy` | `build_tree`, `gen_bitlen`, `gen_codes` |
| `inflate_table.dfy`, `symbols.dfy` | `inflate_table`; looking a symbol up in its table |
| `bit_io.dfy`, `static_tables.dfy` | `send_bits`, NEEDBITS and DROPBITS; the tables of `tr_static_init` |
| `code_lengths.dfy`, `blocks.dfy`, `headers.dfy`, `deflate.dfy` | the block coder |
| `shortest.dfy` | its codes give the shortest data |
| `reference.dfy` | the reference decoder, one step per decision of RFC 1951 |
| `window.dfy`, `inflate_steps.dfy`, `inflate.dfy` | the window, and `inflate` with `inflate_fast` |
| `round_trip.dfy` | `inflate` undoes the block coder |
| `noise.dfy`, `agreement.dfy` | the handshake; what acceptance means |
| `keypairs.dfy`, `sessions.dfy`, `replay.dfy` | keypair rotation, from handshakes to keypairs, the replay window |
| `schedule.dfy`, `callout.dfy` | the plain schedule, and the wheel |
| `bpf.dfy`, `bpf_meaning.dfy` | the packet filter machine; what its instructions compute |
| `crc.dfy`, `adler.dfy`, `permute.dfy` | as their names say |
| `ring.dfy`, `hashtable.dfy` | the circular list, and the hash table threaded through it |
| `utf8.dfy`, `json_string.dfy`, `json.dfy` | JSON text: encoding, strings, lexer, parser and dumper |
| `json_spelling.dfy`, `json_grammar.dfy` | what a text means, and that the loader agrees |
| `json_round_trip.dfy`, `json_layout.dfy` | parsing undoes dumping; what the dump flags promise |

## Findings

- `wireguard_check_replay` (bin/mudband/common/wireguard.c:459-509) keeps the distance of a
  counter from the window head in a `uint32_t diff`, while counters have 64 bits. Distances of
  2^32 and more are truncated. `Replay.TruncationReplay` gives a run of four packets in which the
  counter 0 is accepted twice. `Replay.CheckExact` gives the exact condition: a call does what the
  window is for if and only if the truncation is harmless (`Replay.Harmless`), which a caller can
  tell from the head, the bitmap and the counter before the call. `Replay.CheckRefines`,
  `Replay.AcceptedWhen` and `Replay.NoneTwice` hold while distances stay below 2^32.
- The length limit is the only thing that costs bits in `build_tree`. `Trees.BuildTree` proves the
  lengths optimal unless `gen_bitlen` cut some, and that it cuts none while the frequencies of a
  block add up to less than the Fibonacci number Fib(max_length + 3): 2584 for literals and
  distances, 55 for the code length code. A dynamic block of fewer than 2583 tokens therefore has
  the shortest data part that any codes could give it (`Shortest.ShortestData`).
- A match that reaches back before the start of the output is reported only when there is room for
  a byte of output. Two decoders given the same input and room can therefore differ in whether
  they have already reported it, and in nothing else (`Reference.OneDecoding`).

## Model

| member | source | states |
|---|---|---|
| `Canonical.PrefixFree` | lib/libgz/inftrees.c:130-145 | for lengths that are not over-subscribed no code word is a prefix of a later one |
| `Canonical.Covered` | lib/libgz/inftrees.c:130-145 | if the Kraft sum is one, every bit string starts with a code word |
| `Canonical.HuffIsCodeValue` | lib/libgz/trees.c:581-613 | the interval layout that `inflate_table` walks and the `next_code` recurrence of `gen_codes` give every symbol the same code word |
| `Canonical.Consecutive` | lib/libgz/trees.c:581-613 | first rule of section 3.2.2 of RFC 1951: codes of one length are consecutive, in the order of their symbols |
| `Canonical.ShorterFirst` | lib/libgz/trees.c:594-600 | second rule: shorter codes come before longer ones |
| `Canonical.FirstIsZero` | lib/libgz/trees.c:594-600 | the first of the shortest codes is all zeros |
| `Format.BlockTypes` | lib/libgz/inflate.c:813-853 | by the bits of the header: last block, and stored, fixed, dynamic or bad |
| `Format.FixedLengths` | lib/libgz/inflate.c:241-285 | the fixed code lengths of section 3.2.6 of RFC 1951 by ranges of symbols |
| `Format.StoredLength` | lib/libgz/inflate.c:854-866 | a stored block has its length and the complement, or is bad |
| `Format.Counts` | lib/libgz/inflate.c:887-904 | the three counts of a dynamic header by their bits, and when they are too many |
| `Format.CodeLengthOrder` | lib/libgz/inflate.c:905-925 | the code length code is read in the order 16, 17, 18, 0, 8, 7, 9, 6, ... stated by position; lengths not sent are 0 |
| `Format.SentFields` | lib/libgz/trees.c:71-72 | the coder sends its lengths in three bits each in that order |
| `Format.Runs` | lib/libgz/inflate.c:926-973 | the symbols of the code length code: lengths, 3 to 6 copies, 3 to 10 and 11 to 138 zeros, by the bits behind them |
| `Format.LengthSymbols` | lib/libgz/inflate.c:1012-1060 | literals, end of block, and base and extra bits of every length symbol in closed form |
| `Format.DistanceSymbols` | lib/libgz/inflate.c:1071-1097 | base and extra bits of every distance symbol in closed form |
| `Optimality.Join` | lib/libgz/trees.c:663-686 | any lengths for a set of nodes with Kraft sum at most one give, after joining the two least frequent nodes, lengths that are still feasible and cheaper by the frequency of the new node |
| `Trees.PqDownHeap` | lib/libgz/trees.c:459-482 | extends the heap order to the given position, permuting the heap and nothing else |
| `Trees.MergeTwo` | lib/libgz/trees.c:665-683 | one round: the two least frequent active nodes get a father with their joint frequency; all nodes stay accounted for once, listed by frequency |
| `Trees.MergeAll` | lib/libgz/trees.c:661-686 | the merged tree as a list: root first, fathers before sons, every leaf and inner node once, by decreasing frequency |
| `Trees.LowerBound` | lib/libgz/trees.c:484-489 | no lengths with Kraft sum at most one cost less than the frequencies of the inner nodes |
| `Trees.Attained` | lib/libgz/trees.c:520-541 | the depths of the leaves cost exactly that |
| `Trees.DepthsOptimal` | lib/libgz/trees.c:484-541 | depths in the merged tree are optimal lengths |
| `Trees.DeepIsFrequent` | lib/libgz/trees.c:522-526 | a node at depth d needs a total frequency of at least Fib(d + 2) |
| `Trees.FirstPass` | lib/libgz/trees.c:511-541 | lengths cut at the limit, with a Kraft sum too large by one unit for every two cut nodes; with none cut, exact depths |
| `Trees.RepairCounts` | lib/libgz/trees.c:547-560 | the overflow repair terminates, never takes from an empty count, keeps the number of leaves and makes the Kraft sum exactly one |
| `Trees.SecondPass` | lib/libgz/trees.c:562-571 | the repaired counts are given out to exactly the leaves, no more frequent symbol getting a longer code |
| `Trees.GenBitlen` | lib/libgz/trees.c:494-571 | lengths within the limit for exactly the leaves, Kraft sum one; optimal unless cut; not cut if the total frequency is below Fib(max + 3) |
| `Trees.BiReverse` | lib/libgz/trees.c:1179-1189 | the low bits in reverse order |
| `Trees.NextCodes` | lib/libgz/trees.c:594-600 | the smallest code of every length, within 16 bits |
| `Trees.GenCodes` | lib/libgz/trees.c:581-613 | every coded symbol gets the canonical code word of section 3.2.2 of RFC 1951, first bit lowest; nothing else changes |
| `Trees.BuildTree` | lib/libgz/trees.c:623-705 | for every frequency table: all lengths at most `max_length`, Kraft sum exactly one, a code for every symbol that occurs and, if two occur, for no other; canonical code words; no more frequent symbol has a longer code; fewest bits in all unless lengths were cut at the limit |
| `InflateTable.CountLengths` | lib/libgz/inftrees.c:109-112 | how many symbols have each length |
| `InflateTable.FreeCodes` | lib/libgz/inftrees.c:130-137 | how far the Kraft sum is from one, or -1 if over-subscribed |
| `InflateTable.SortSymbols` | lib/libgz/inftrees.c:139-146 | symbols by length and, within a length, by value |
| `InflateTable.IncrementBackwards` | lib/libgz/inftrees.c:263-272 | the backwards increment of a code word |
| `InflateTable.NextHuff` | lib/libgz/inftrees.c:263-272 | the backwards increment of a symbol's code word is the next symbol's |
| `InflateTable.SubtableBits` | lib/libgz/inftrees.c:286-294 | the look-ahead finds a width that holds every symbol with the same root bits |
| `InflateTable.Replicate` | lib/libgz/inftrees.c:251-261 | an entry is written exactly where the low bits are the code word |
| `InflateTable.InflateTable` | lib/libgz/inftrees.c:32-330 | refuses exactly the over-subscribed and the wrongly incomplete sets; when it returns 0, looking up any bit string in root and sub-table yields the entry of the symbol whose code word it starts with |
| `Symbols.OneMatch` | lib/libgz/inftrees.c:130-145 | no bit string matches two symbols |
| `Symbols.FindSymbol` | lib/libgz/inflate.c:1019-1034 | the lookup loop finds the symbol at the front of the stream, pulling no byte too many, or waits exactly when the input cannot tell |
| `Symbols.FastLookup` | lib/libgz/inffast.c:126-158 | the lookup of `inflate_fast` consumes the same symbol |
| `BitIO.BitWriter.SendBits` | lib/libgz/trees.c:218-230 | appends exactly the given bits through the 16-bit buffer |
| `BitIO.BitWriter.BiFlush` | lib/libgz/trees.c:1194-1206 | full bytes go out, the stream is unchanged |
| `BitIO.BitWriter.BiWindup` | lib/libgz/trees.c:1211-1225 | pads with zero bits to a byte boundary |
| `BitIO.BitReader.NeedBits` | lib/libgz/inflate.c:469-484 | succeeds exactly if the stream has so many bits; nothing is consumed |
| `BitIO.BitReader.DropBits` | lib/libgz/inflate.c:490-494 | consumes the bits |
| `BitIO.BitReader.ReturnBytes` | lib/libgz/inffast.c:298-302 | giving back unused bytes leaves the stream as it was |
| `StaticTables.InitLengths` | lib/libgz/trees.c:262-274 | the length code tables: every match length has the code whose base and extra bits reach it |
| `StaticTables.InitDists` | lib/libgz/trees.c:277-293 | the same for distances |
| `Window.UpdateWindow` | lib/libgz/inflate.c:359-407 | after every call the circular window read from `wnext` is the end of the whole output |
| `Window.MatchStep` | lib/libgz/inflate.c:1114-1158 | the MATCH state writes bytes of the match as the full history gives them, overlapping or not, and rejects exactly the distances that reach before the start |
| `Window.FastCopy` | lib/libgz/inffast.c:186-280 | the segmented copy of `inflate_fast` writes the same bytes |
| `Reference.StepMonotone` | lib/libgz/inflate.c:517-587 | a step of the decoder is the same however many bytes follow |
| `Reference.OneDecoding` | lib/libgz/inflate.c:570-587 | decodings of one stream that can go no further within the same room agree on output and position, and on the state up to a pending rejection |
| `Reference.OneOutput` | lib/libgz/inflate.c:570-587 | of any two decodings of a stream one output is a prefix of the other |
| `Inflate.FixedTables` | lib/libgz/inflate.c:241-285 | the tables built for fixed blocks decode the fixed codes |
| `Inflate.Inflater.InflateFast` | lib/libgz/inffast.c:67-321 | the fast loop leaves the decoder where steps of the reference decoder lead, with input consumed, unused bytes given back and the output in the buffer |
| `Inflate.Inflater.Inflate` | lib/libgz/inflate.c:590-1242 | one call: output and position are those of the reference decoder on all input so far, as far as input and room allow; the return code says whether the stream ended, is bad, or no progress was possible |
| `Inflate.InflateCalls` | lib/libgz/inflate.c:590-1242 | any sequence of calls: the output is that of the reference decoder on the joined input, complete if the calls from the last input on offer enough room |
| `Inflate.SplitIndependence` | lib/libgz/inflate.c:555-587 | two runs over the same input, split into calls in any two ways: one output is a prefix of the other, and with room to spare they agree and stop at the same bit |
| `CodeLengths.TwoTrees` | lib/libgz/trees.c:711-801 | undoing the run-length coding of two lists of lengths gives both lists |
| `CodeLengths.ScanTree` | lib/libgz/trees.c:711-750 | counts precisely the symbols that `send_tree` sends |
| `CodeLengths.RunsSent` | lib/libgz/trees.c:711-801 | runs of equal lengths go out as runs: which symbols, with which extra bits |
| `CodeLengths.SendTree` | lib/libgz/trees.c:756-801 | sends the code words and extra bits of exactly those symbols |
| `CodeLengths.ItemsDecode` | lib/libgz/inflate.c:926-973 | the CODELENS state rebuilds the lengths from them |
| `Blocks.CompressBlock` | lib/libgz/trees.c:1084-1130 | sends the bits of all tokens and of end-of-block |
| `Blocks.TokenDecodes` | lib/libgz/inflate.c:1012-1113 | the LEN to DISTEXT states decode the bits of a token to that token |
| `Blocks.BlockDecodes` | lib/libgz/inflate.c:1012-1164 | the decoder undoes a whole block, for all tokens and all pairs of usable codes |
| `Headers.SendAllTrees` | lib/libgz/trees.c:842-866 | sends the header of a dynamic block |
| `Headers.HeaderDecodes` | lib/libgz/inflate.c:887-1010 | TABLE, LENLENS and CODELENS read both codes back |
| `Deflate.Tally` | lib/libgz/trees.c:1034-1080 | the frequency of every symbol is the number of tokens that have it, and one for end-of-block |
| `Deflate.BuildBlTree` | lib/libgz/trees.c:807-835 | a complete code of at most 7 bits for all symbols both trees need, and the smallest `max_blindex` behind which no length is lost |
| `Deflate.StaticTrees` | lib/libgz/trees.c:295-315 | the fixed codes of section 3.2.6 of RFC 1951 |
| `Deflate.DynamicBlock` | lib/libgz/trees.c:925-1015 | a block with codes for all its tokens, the cheapest for their frequencies |
| `Shortest.BlockLength` | lib/libgz/trees.c:1084-1130 | the length of a block's data: what its symbols cost, and extra bits |
| `Shortest.ShortestData` | lib/libgz/trees.c:925-1015 | for fewer than 2583 tokens no codes give a shorter data part |
| `Deflate.StaticBlock` | lib/libgz/trees.c:1000-1006 | a block with the fixed codes |
| `Deflate.StoredBlock` | lib/libgz/trees.c:871-885 | header, padding, length and complement, bytes |
| `RoundTrip.FlushBlock` | lib/libgz/trees.c:925-1028 | whichever format is taken, the block decodes to the data of its tokens |
| `RoundTrip.DeflateStream` | lib/libgz/trees.c:925-1028 | all blocks together decode to all data, ending in DONE at the end of the input |
| `RoundTrip.InflateStream` | lib/libgz/inflate.c:590-1242 | `inflate` on such a stream, in pieces of any size and with enough room from the last piece on, ends with exactly the data, in DONE, at the end of the input |
| `RoundTrip.InflateUndoesDeflate` | lib/libgz/inflate.c:590-1242 | both joined: for all blocks, all ways of cutting the compressed bytes and all buffers |
| `Noise.HmacInto` | bin/mudband/common/wireguard.c:324-382 | HMAC of RFC 2104, also when the digest overwrites its input |
| `Noise.Kdf1` | bin/mudband/common/wireguard.c:385-401 | block 1 of the HKDF expansion of section 2.3 of RFC 5869, also when the output is the chaining key |
| `Noise.Kdf2` | bin/mudband/common/wireguard.c:404-426 | blocks 1 and 2 |
| `Noise.Kdf3` | bin/mudband/common/wireguard.c:429-457 | blocks 1 to 3 |
| `Noise.HandshakeState.Initiate` | bin/mudband/common/wireguard.c:994-1108 | the in-place message creation is the value-level step, on failure too |
| `Noise.HandshakeState.Accept` | bin/mudband/common/wireguard.c:740-862 | the same for processing an initiation; on failure the handshake is untouched |
| `Noise.HandshakeState.Respond` | bin/mudband/common/wireguard.c:1111-1200 | the same for creating a response |
| `Noise.HandshakeState.Finish` | bin/mudband/common/wireguard.c:865-960 | the same for processing a response |
| `Noise.InitiationAgrees` | bin/mudband/common/wireguard.c:740-862 | the responder accepts every honest initiation, and both then hold the same chaining key and hash |
| `Noise.ResponseAgrees` | bin/mudband/common/wireguard.c:865-960 | the initiator accepts every honest response, and both hold the same chaining key |
| `Noise.HonestRun` | bin/mudband/common/wireguard.c:657-701 | after every honest run each side's sending key is the other's receiving key, and the indices cross over |
| `Agreement.InitiationMixes` | bin/mudband/common/wireguard.c:994-1108 | everything an initiation mixes into keys and transcript, in order |
| `Agreement.AcceptMixes` | bin/mudband/common/wireguard.c:740-862 | the same for its receiver, with the checks it makes |
| `Agreement.ResponseMixes` | bin/mudband/common/wireguard.c:1111-1200 | the same for a response, preshared key included |
| `Agreement.FinishMixes` | bin/mudband/common/wireguard.c:865-960 | the same for its receiver |
| `Agreement.AcceptedInitiation` | bin/mudband/common/wireguard.c:740-862 | a responder that accepts an initiation is the one meant, knows its sender's static key, and takes its time for new |
| `Agreement.AcceptedResponse` | bin/mudband/common/wireguard.c:865-960 | a run the initiator completes, whatever initiation the responder took: equal preshared keys, equal key agreements, the same messages, each side's static key known to the other |
| `Agreement.SessionKeys` | bin/mudband/common/wireguard.c:672-681 | which output block is whose sending key |
| `Agreement.HmacIs` | bin/mudband/common/wireguard.c:324-382 | the pads of RFC 2104 byte by byte |
| `Keypairs.PeerState.AddNewKeypair` | bin/mudband/common/wireguard.c:638-655 | which slots a new keypair moves |
| `Keypairs.PeerState.Update` | bin/mudband/common/wireguard.c:625-636 | the confirmed keypair becomes current |
| `Keypairs.PeerState.EncryptPacket` | bin/mudband/common/wireguard.c:1284-1292 | the nonce is the counter, which moves on modulo 2^64 |
| `Keypairs.DoKeeps` | bin/mudband/common/wireguard.c:617-701 | every operation keeps: a keypair in one slot only, indices distinct, counters ahead of all uses |
| `Keypairs.NeverTwice` | bin/mudband/common/wireguard.c:617-701 | in every run no pair of sending key and counter is used twice, no keypair lives in two slots, non-zero indices are distinct |
| `Keypairs.OnlyByUpdate` | bin/mudband/common/wireguard.c:625-636 | a keypair made as responder becomes current only by confirmation |
| `Keypairs.UpdateRetains` | bin/mudband/common/wireguard.c:625-636 | over runs: after a confirmation both the new and the replaced keypair are still found |
| `Keypairs.InitiatorRetains` | bin/mudband/common/wireguard.c:638-655 | over runs: a session started as initiator keeps the next keypair, or else the current one |
| `Keypairs.ResponderRetains` | bin/mudband/common/wireguard.c:638-655 | over runs: a session started as responder keeps the current keypair in use |
| `Keypairs.DestroyRetains` | bin/mudband/common/wireguard.c:617-623 | over runs: a destroyed keypair is not found again, the others are |
| `Keypairs.EncryptRetains` | bin/mudband/common/wireguard.c:1284-1292 | over runs: sending moves one counter on and leaves the rest |
| `Keypairs.LookupExact` | bin/mudband/common/wireguard.c:511-522 | a lookup finds slot s if and only if s is valid and has the index |
| `Sessions.StartSession` | bin/mudband/common/wireguard.c:657-701 | derives the keys of the handshake in place, puts them into the right slot and wipes the handshake |
| `Sessions.InItsSlot` | bin/mudband/common/wireguard.c:638-701 | the session of a handshake is the current keypair of the initiator, the next one of the responder, and is found by its index |
| `Sessions.SessionsMeet` | bin/mudband/common/wireguard.c:511-701 | after every honest run the index in a packet finds, at the other side, the keypair whose receiving key is the packet's key, both ways, before and after confirmation |
| `Sessions.FreshSession` | bin/mudband/common/wireguard.c:672-681 | if the key derivation distinguishes the chaining keys in use, a new chaining key gives a sending key never used before |
| `Replay.Keypair.CheckReplay` | bin/mudband/common/wireguard.c:459-509 | the window after the call, and the verdict, with the truncated distance |
| `Replay.CheckRefines` | bin/mudband/common/wireguard.c:459-509 | for distances below 2^32: accepts exactly the unseen counters above the head or less than 32 below it; bit d says whether the head minus d was accepted |
| `Replay.CheckExact` | bin/mudband/common/wireguard.c:459-509 | for all distances: correct if and only if the truncation is harmless |
| `Replay.AcceptedWhen` | bin/mudband/common/wireguard.c:459-509 | over a run: exactly which packets are accepted, all-ones never |
| `Replay.NoneTwice` | bin/mudband/common/wireguard.c:459-509 | over a run no counter is accepted twice |
| `Replay.TruncationReplay` | bin/mudband/common/wireguard.c:459-509 | the run in which a counter is accepted twice when distances reach 2^32 |
| `Schedule.ClockInv` | bin/mudband/common/callout.c:95-161 | afterwards every pending deadline lies in the future |
| `Schedule.ClockFires` | bin/mudband/common/callout.c:95-161 | with callbacks that reset or stop any callout: everything due fires unless cancelled, nothing early, nothing twice, by deadline and first-in first-out within a tick |
| `Schedule.DueFires` | bin/mudband/common/callout.c:95-161 | a callout whose time has come fires, unless a callback that ran in this call reset or stopped it |
| `Schedule.ResetFires` | bin/mudband/common/callout.c:61-92 | a reset takes effect after the given ticks, at least one, and not before |
| `Schedule.StopSilences` | bin/mudband/common/callout.c:163-191 | a stopped scheduling never fires |
| `Callout.SlotIsMod` | bin/mudband/common/callout.c:87-90 | masking with a size that is a power of two is taking the remainder |
| `Callout.InOneBucket` | bin/mudband/common/callout.c:61-92 | a callout is in a bucket if and only if it is pending and the bucket is that of its time, and there once |
| `Callout.CalloutBlock.Reset` | bin/mudband/common/callout.c:61-92 | reschedules, keeping a scan in progress on its way |
| `Callout.CalloutBlock.Stop` | bin/mudband/common/callout.c:163-191 | cancels, and says whether it was pending |
| `Callout.CalloutBlock.Clock` | bin/mudband/common/callout.c:95-161 | the wheel does exactly what the plain schedule says |
| `Bpf.CodeMapIsCases` | bin/mudband/common/mudband_bpf.c:404-432 | the code map contains exactly the interpreter's case labels |
| `Bpf.UnknownCodes` | bin/mudband/common/mudband_bpf.c:159-402 | the interpreter gives up on exactly the other codes |
| `Bpf.Validate` | bin/mudband/common/mudband_bpf.c:435-487 | accepts if and only if every instruction is allowed and the last one returns |
| `Bpf.StepSafe` | bin/mudband/common/mudband_bpf.c:159-402 | an allowed instruction does not fault and stays inside the program |
| `Bpf.Sound` | bin/mudband/common/mudband_bpf.c:159-402 | an accepted program returns within as many steps as it has instructions, on every packet |
| `Bpf.Interpret` | bin/mudband/common/mudband_bpf.c:159-402 | the loop computes the step-by-step meaning and always ends |
| `Bpf.Filter` | bin/mudband/common/mudband_bpf.c:159-402 | without a program everything passes; an accepted one returns |
| `BpfMeaning.Jumps` | bin/mudband/common/mudband_bpf.c:287-322 | a jump goes on by `jt` if and only if the relation named by its operation field holds between A and the operand |
| `BpfMeaning.Arithmetic` | bin/mudband/common/mudband_bpf.c:323-392 | A becomes the result of the operation named by the field, modulo 2^32, by bits for and and or |
| `BpfMeaning.Loads` | bin/mudband/common/mudband_bpf.c:187-272 | by size and mode: the big-endian value of the bytes, or the end of the program where they are not all there |
| `BpfMeaning.IndexLoads` | bin/mudband/common/mudband_bpf.c:220-277 | the loads into X |
| `BpfMeaning.Stores` | bin/mudband/common/mudband_bpf.c:279-286 | one cell of memory changes |
| `BpfMeaning.Others` | bin/mudband/common/mudband_bpf.c:181-185 | returns, TAX and TXA |
| `BpfMeaning.RefusedFaults` | bin/mudband/common/mudband_bpf.c:435-487 | but for jumps, the validator refuses exactly the instructions that can fault |
| `BpfMeaning.RefusedJumps` | bin/mudband/common/mudband_bpf.c:435-487 | and exactly the jumps that can leave the program |
| `BpfMeaning.FieldTestMeans` | bin/mudband/common/mudband_bpf.c:159-402 | a whole program: a two-byte field test tells exactly the packets with that value |
| `Crc.MakeTable` | lib/libgz/crc32.c:108-151 | entry n of table k is n followed by k + 1 zero bytes |
| `Crc.Crc32Little` | lib/libgz/crc32.c:258-295 | the sliced loop, at any alignment, is the bit-at-a-time checksum of section 8 of RFC 1952 |
| `Crc.CrcAppend` | lib/libgz/crc32.c:221-250 | a checksum can be continued |
| `Crc.CrcIsRemainder` | lib/libgz/crc32.c:80-107 | the checksum is the complemented remainder of the message polynomial modulo the generator, whose exponents are written out |
| `Crc.MatrixTimes` | lib/libgz/crc32.c:344-358 | by linearity the product applies the operator |
| `Crc.MatrixSquare` | lib/libgz/crc32.c:361-369 | the operator for twice as many zero bits |
| `Crc.Crc32Combine` | lib/libgz/crc32.c:372-425 | repeated squaring feeds the zero bytes; given the checksums of any two messages the result is that of their concatenation |
| `Crc.CombineIsConcatenation` | lib/libgz/crc32.c:372-425 | feeding the second message's length in zero bytes and adding its checksum gives the checksum of the concatenation |
| `Adler.NmaxFits` | lib/libgz/adler32.c:14-16 | NMAX is the largest number of bytes for which the sums fit 32 bits |
| `Adler.Deferred` | lib/libgz/adler32.c:82-128 | reduction may be put off |
| `Adler.AdlerIs` | lib/libgz/adler32.c:60-128 | both sums in closed form, modulo 65521 |
| `Adler.Adler32` | lib/libgz/adler32.c:60-128 | the checksum of section 8.2 of RFC 1950 for every buffer and starting value, the sums staying below 2^32 |
| `Adler.Composes` | lib/libgz/adler32.c:60-128 | composes over any split |
| `Adler.Adler32Combine` | lib/libgz/adler32.c:131-152 | the checksum of a concatenation from those of its parts |
| `Ring.InsertLinked` | lib/libjansson/hashtable.c:39-45 | linking a node in before another inserts it into the circle there |
| `Ring.RemoveLinked` | lib/libjansson/hashtable.c:47-51 | unlinking takes it out |
| `Hashtable.Table.InsertToBucket` | lib/libjansson/hashtable.c:58-71 | a bucket grows and every bucket stays one segment of the list |
| `Hashtable.Table.FindPair` | lib/libjansson/hashtable.c:73-95 | finds the key's node, or there is none |
| `Hashtable.Table.Get` | lib/libjansson/hashtable.c:259-273 | lookup in the map |
| `Hashtable.Table.Set` | lib/libjansson/hashtable.c:207-257 | update of the map, rehashing or not |
| `Hashtable.Table.Del` | lib/libjansson/hashtable.c:275-279 | removal from the map, and whether the key was there |
| `Hashtable.Table.Clear` | lib/libjansson/hashtable.c:281-295 | the empty map |
| `Hashtable.Table.Rehash` | lib/libjansson/hashtable.c:145-177 | twice the buckets, no binding changed |
| `Hashtable.Table.Keys` | lib/libjansson/hashtable.c:297-324 | iteration visits every key exactly once |
| `Hashtable.Table.SizeIsCardinality` | lib/libjansson/hashtable.c:207-257 | the size is the number of keys |
| `Utf8.CheckFullLoop` | lib/libjansson/utf.c:83-137 | the code point, or none for overlong, surrogate or too large ones |
| `Utf8.IterateEncodes` | lib/libjansson/utf.c:139-163 | what is read off the front is the encoding of its code point |
| `Utf8.EncodeIterates` | lib/libjansson/utf.c:11-45 | every scalar value is read back from its encoding (section 3 of RFC 3629) |
| `Utf8.EncodePlaces` | lib/libjansson/utf.c:11-45 | the encoding by places: which byte carries which bits |
| `JsonSpelling.DecodeExact` | lib/libjansson/load.c:316-468 | for every text that is scanned: it is decoded to a string if and only if it spells that string, raw, by escape letter, by four digits in either case, or by surrogate pair |
| `JsonSpelling.SpellsReads` | lib/libjansson/load.c:316-468 | every spelling is scanned up to the closing quote and decoded |
| `JsonString.DumpStringLoop` | lib/libjansson/dump.c:71-162 | the loop with its runs of unescaped text writes the escaped string |
| `JsonString.DecodeText` | lib/libjansson/load.c:376-468 | the decoding loop never overruns its buffer and gives the decoded text |
| `JsonString.DecodeLength` | lib/libjansson/load.c:370-376 | the decoded string is never longer than its source |
| `JsonString.StringRoundTrip` | lib/libjansson/load.c:316-468 | every valid string, dumped with any flags, is scanned to its closing quote and decoded to itself, through surrogate pairs too |
| `JsonRoundTrip.ValueBack` | lib/libjansson/load.c:679-874 | parsing the text of a value gives the value and stops right behind it, whatever delimiter follows |
| `JsonRoundTrip.TextValid` | lib/libjansson/dump.c:178-418 | dumped text is valid UTF-8 |
| `JsonRoundTrip.RoundTrip` | lib/libjansson/dump.c:178-418 | for every value without reals and every combination of indentation, compactness, ASCII and slash escaping, loading the dump gives the value |
| `JsonGrammar.LexIs` | lib/libjansson/load.c:577-643 | a token is the text of a token behind blanks |
| `JsonGrammar.NodeReads` | lib/libjansson/load.c:679-874 | every value in every layout is parsed |
| `JsonGrammar.NodeOf` | lib/libjansson/load.c:679-874 | what is parsed is a value in some layout |
| `JsonGrammar.LoadExact` | lib/libjansson/load.c:876-960 | a text is accepted, with value v, if and only if it is v written in the grammar of RFC 8259 without reals, under all flags |
| `JsonLayout.TextAscii` | lib/libjansson/dump.c:71-162 | JSON_ENSURE_ASCII gives ASCII |
| `JsonLayout.BodySlash` | lib/libjansson/dump.c:71-162 | JSON_ESCAPE_SLASH escapes every slash |
| `JsonLayout.PieceIs` | lib/libjansson/dump.c:95-150 | which code points are written raw, by a letter, or by upper-case digits |
| `JsonLayout.Lines` | lib/libjansson/dump.c:49-69 | JSON_INDENT: new lines and how far they are indented |
| `Permute.Gcd` | lib/libmud/vopt.c:150-166 | the loop computes Euclid's remainder sequence |
| `Permute.EuclidFacts` | lib/libmud/vopt.c:150-166 | its result divides both numbers and is a combination of them |
| `Permute.OrbitCloses` | lib/libmud/vopt.c:185-199 | each cycle closes after `cyclelen` steps |
| `Permute.OrbitDistinct` | lib/libmud/vopt.c:185-199 | and meets no position twice before |
| `Permute.OrbitCovers` | lib/libmud/vopt.c:185-199 | and meets every position of its class |
| `Permute.PermuteArgs` | lib/libmud/vopt.c:170-200 | the two blocks change places, each in its order, and nothing else moves |

## Left out

- Match finding, hash chains and level switching in `deflate.c`: the tokens of a block are the coder's input.
- Which block format `_tr_flush_block` takes: it compares `opt_len` and `static_len`, whose accounting is not modelled, so the format is a parameter and the round trip holds for every choice. `_tr_align` is left out too.
- Frequencies are unbounded, where the source keeps them in 16 bits; that the token buffer bounds them is not modelled.
- `Inflate.InflateCalls`: results hold unless `inflate_table` ran out of table space for a usable code (`ranOut`); that ENOUGH is enough was found by a search outside the repository.
- `inflate` on gzip and zlib headers and trailers, preset dictionaries, Z_BLOCK and Z_TREES, `inflateSync`, windows smaller than 32 KB, and `infback.c`.
- The bit accumulator of `inflate` is unbounded; that it stays within the machine word follows from `BitIO.BitReader.NeedBits`, which pulls no byte too many.
- The overlay of `pending_buf`, `d_buf` and `l_buf`: separate sequences.
- Building the CRC polynomial from its exponents: it is a constant, which `Crc.CrcIsRemainder` proves to be that polynomial. `crc32_big` is left out.
- BLAKE2s, X25519 and ChaCha20-Poly1305: arbitrary functions; commuting key agreement and opening as the inverse of sealing are the only laws assumed, and 32-byte hashes. The theorems of `agreement.dfy` also assume that a seal opens only under its own key, nonce and associated data, and that the key derivation and the hash have no collision among the values used in the two runs.
- The device has one peer: lookup of the peer, the uniqueness scan over several peers, cookies, MACs, the one-time password, rate limits and key lifetimes are not modelled; the verdict of the time and rate checks is a parameter.
- Fresh indices are an assumption of `Keypairs.Allowed`; fresh keys are reduced to distinct chaining keys by `Sessions.FreshSession`.
- The queues of the timer wheel are sequences of callout numbers instead of intrusive links; locks and the clock source are left out.
- BPF shifts by 32 or more are undefined in C: they give an arbitrary value. The empty program is accepted but means no filter.
- JSON reals, sorting of keys, and the cycle check of `do_dump` (values are trees). The loader's stream with its push-back buffer is a sequence of bytes; error positions are not modelled.
- `Hashtable.Table.Get`: the hash is any fixed function of the key; allocation failure, reference counts and the seed are left out, and keys compare as whole strings.
- `Permute.PermuteArgs`: for non-empty blocks, which is when its callers use it; with an empty second block the source would divide by zero.
- The user interface, sockets, TLS, logging, `vsb.c`, `vuuid.c` and base64: they would only add easy members.
