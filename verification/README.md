# Tetron: a verified model of its addressing, fragmentation and membership protocols

Tetron is a peer-to-peer mesh VPN. This project models, in Dafny, the parts of it whose
correctness is not visible from one function at a time, and proves what they promise over all
inputs and all runs. `dafny verify dfyconfig.toml` checks the whole project.

| module | models |
|---|---|
| `Subnets`, `SubnetSearch` | CIDR masks, containment, overlap, the search for a free subnet |
| `Fnv`, `IndexResidues`, `ResidueReach`, `Derivation` | the FNV-1a loop, how the index moves it and which residues it reaches, address derivation, the collision rotation `assign_ip` |
| `Rosters`, `NodeSubnets` | runs of one network's roster; runs of one node's set of networks |
| `Cidr` | the text form of subnets |
| `Hostnames` | sanitizing, validity, collision renaming, admissions |
| `Checksum`, `Ipv4Fragments` | the Internet checksum; IPv4 fragmentation and re-fragmentation on bytes |
| `Ipv6Envelopes`, `Ipv6Reassembly` | the internal IPv6 envelope and its reassembler |
| `Generations` | generation-ordered publishing and polling between coordinators |
| `Invites` | single-use invites with atomic redemption and restore |
| `ConfigCache` | the fingerprint-validated configuration cache with the racy-mtime rule |
| `Words`, `Counting`, `Decimal`, `Identities`, `Options` | 32-bit words and bit operators, pigeonhole counting, decimal text |

## How the model reads the source

- Words are bounded integers; `&`, `|`, `^` are defined bit by bit, and wrap-around is explicit.
- A prefix length of 0 shifts a 32-bit one by 32 in `subnet_host_mask`, so masks, overlap, search
  and derivation are stated for prefixes 1 to 32. The text form accepts 0, and its round trip
  covers it.
- `assign_ip` never returns when every 32-bit index is taken; the model returns `None` there.
  Identities are the bytes of their printed form, of any length.
- The roster is a map from address to identity and index. `MemberList` is not part of this model;
  a join of a present identity replaces its entry.
- Hostname lengths count characters; the source counts bytes, which differs only for names its
  character test rejects anyway. Ipv4 and number parsing follow the Rust standard library.
- Rules that were replaced, and what was wrong with them, are modelled from the requirements in
  `spec/` that describe them; everything else follows the code.
- A network record has a shared part, which polling adopts (members, approvals, nuke proposals),
  and a local part, which it does not (invites, keys, name, subnet, threshold). The compared hash
  covers both; equal hashes stand for equal contents. Reading the record may fail, and a failed
  read looks like an absent record. A publish that skips the read after a fresh local mutation is,
  in the model, one whose read fails. Only coordinators mutate.
- Invites are keyed by their secret, which stands for its hash; an expiry of zero means never.
- Times, the admission verdict, the arrival order of datagrams, which reads fail and the order of
  events are parameters. Taking a fingerprint of the configuration and reading it are two instants
  with anything in between; each is one instant.

Where comments and code disagree, the model follows the code:

- `next_available_subnet` gives up with the advanced attempt, not with the candidate
  (`SubnetSearch.GivingUp` says when the two coincide).
- `derive_ip` is said to stay inside the subnet always; at /31 and /32 it does so only on bases
  whose second lowest bit is set (`Derivation.PlacedInsideIff`, `Derivation.NarrowSubnetIsLeft`).
- The gateway is computed from the unmasked base while derivation masks it, so "never the gateway"
  depends on the base; from /22 to /30, on a base that fails it, every identity has an index that
  derives the gateway (`Derivation.GatewayDerivableIff`).
- A renamed hostname is not checked again: a valid name of 62 or 63 characters that is taken is
  renamed to an invalid one (`Hostnames.RenamingKeepsValidIff` says when renaming is safe).
- A failed read of the record is taken to mean that there is none, so a coordinator that restarts
  from an old copy can still take the record back (`Generations.RecordKeptIff`,
  `Generations.BlindPublishWedges`).
- The poller's adoption is said to make nodes converge on the blob; they converge on its shared
  part, and a node whose local part differs fetches it again at every tick
  (`Generations.SettledIff`).
- A fragment's total length is written into sixteen bits without a check; limits above 65535 would
  cut it (`Ipv4Fragments.LengthFieldExactIff`).
- The fragmenter's offset guard is said to refuse only what cannot be addressed; it refuses by the
  last byte, also when all pieces would start in range (`Ipv4Fragments.GuardIsConservative`). No
  legal packet is affected.
- A cached configuration is said to be returned only while its files are unchanged; settings that
  appear during a load and are removed later are still served (`ConfigCache.CachedLoadIsRightIff`,
  `ConfigCache.RemovedSettingsAreServed`).
- The extra complement is said to match no header; it does match the second spelling of a zero
  checksum, which RFC 1071 receivers accept (`Checksum.ExtraNotIsWrong`,
  `Checksum.SecondZeroIsLetThrough`).

## Model

| member | source | states |
|---|---|---|
| Subnets.InSubnetIffInRange | src/addressing.rs:62-70 | The masked comparison accepts exactly the addresses of the aligned range around the base, for unaligned bases too. |
| Subnets.OverlapIffShared | src/addressing.rs:108-118 | Two subnets overlap, compared at the shorter prefix, if and only if some address is in both; all prefixes 1 to 32, unaligned bases. |
| SubnetSearch.NextAvailableSubnet | src/addressing.rs:133-149 | The wrapping 4096-attempt loop computes `Search`, whose meaning the rows below give. |
| SubnetSearch.SearchIsLeast | src/addressing.rs:133-149 | The result keeps the prefix and is the candidate advanced, modulo 2^32, by the least number of blocks that overlaps nothing, or by 4096. |
| SubnetSearch.CollidesIffCovered | src/addressing.rs:139-141 | An attempt overlaps an existing subnet exactly when its block number is among the blocks that the existing subnets cover, whichever side is coarser. |
| SubnetSearch.CoveredByOne | src/addressing.rs:133-141 | One existing subnet covers exactly one block of the candidate's size, or 2^(prefix difference) blocks when it is the coarser one. |
| SubnetSearch.CoveredAtMostTotal | src/addressing.rs:133-141 | The covered blocks number at most the sum, over the existing subnets, of one block or 2^(prefix difference) blocks. |
| SubnetSearch.SearchFailsIff | src/addressing.rs:138-148 | The result overlaps an existing subnet if and only if 4097 consecutive blocks all do; the last one is returned unexamined. |
| SubnetSearch.SearchComplete | src/addressing.rs:120-149 | With fewer covered blocks than 4097 and than 2^prefix, a free subnet is found, across the 32-bit wrap-around. |
| SubnetSearch.SearchCompleteByTotal | src/addressing.rs:120-149 | The same, counted by the sizes of the existing subnets. |
| SubnetSearch.ShortPrefixSearchExact | src/addressing.rs:136-148 | Up to /12 the search fails if and only if the whole address space is covered. |
| SubnetSearch.GivingUp | src/addressing.rs:126-148 | After 4096 collisions the result is the candidate advanced by 4096 blocks, which is the candidate itself if and only if the prefix is at most 12. |
| Fnv.ComputeHash | src/addressing.rs:217-221 | The byte loop, with 32-bit wrap-around, computes `Hash`. |
| Fnv.KnownHashes | src/addressing.rs:217-221 | The published FNV-1a values of the empty string and of `a`, fixing basis, prime and order of operations. |
| Decimal.PrintedExample | src/addressing.rs:212-216 | The digits an index is printed with, most significant first. |
| Fnv.SuffixKeepsResidue | src/addressing.rs:218-221 | A common suffix neither merges nor separates hash states modulo any 2^k. |
| Fnv.OneByteDecides | src/addressing.rs:217-221 | Inputs that differ in one byte have equal hashes modulo 2^k if and only if the two bytes are equal modulo 2^k; any common prefix and suffix, k up to 32. |
| Fnv.OneByteAlwaysShows | src/addressing.rs:217-228 | For k of at least 8, and in the full hash, a one-byte change always shows. |
| Derivation.DeriveIpWithIndex | src/addressing.rs:211-236 | The method computes `Derive`: hash the identity with the index appended, place the low bits in the masked base, step off hosts 0 and 1. |
| Derivation.PlaceMeaning | src/addressing.rs:223-235 | Up to /30 a placed address is the network address plus the hash residue moved off the two reserved hosts, and at most the last host. |
| Derivation.DerivedAddress | src/addressing.rs:211-236 | Up to /30, in numbers: the base with its host bits cleared, plus the hash of the identity and the printed index modulo the size, with 0 and 1 moved to 2 and 3. |
| Derivation.PlacedInsideIff | src/addressing.rs:200-236 | A derived address is in the subnet if and only if the prefix is at most 30 or the second lowest bit of the base is set, for every hash. |
| Derivation.NarrowSubnetIsLeft | src/addressing.rs:200-236 | On 10.88.0.0/31 every identity and index derives an address outside. |
| Derivation.GatewayIsNext | src/addressing.rs:151-155 | The gateway is the base plus one, wrapping. |
| Derivation.DerivedUsable | src/addressing.rs:200-236 | Up to /30 every derived address is inside and off the two reserved hosts. |
| Derivation.NeverTheGateway | src/addressing.rs:151-155 | No identity and index derives the gateway when the base is aligned or is the last host of its block. |
| Derivation.GatewayDerivableIff | src/addressing.rs:151-155 | From /22 to /30, for every identity: some index derives the gateway if and only if the base is neither aligned nor the last host of its block. |
| Derivation.AssignIp | src/addressing.rs:238-252 | The rotation loop computes `Assign` and returns by index 9, 19, 59, 79 or 99 with at most 6, 7, 17, 37 or 87 addresses held by others, for prefixes up to 28, 28, 27, 25 and 22. |
| Derivation.AssignIsLeast | src/addressing.rs:238-252 | The assigned pair is the derivation at the least index nobody else holds; there is none if and only if others hold the derivation at every 32-bit index. |
| IndexResidues.DecadeResidues | src/addressing.rs:212-221 | Two indices of one decade hash alike modulo 2^k if and only if their last digits agree modulo 2^k. |
| IndexResidues.AppendDigit | src/addressing.rs:212-221 | Appending a digit to an index is exactly one more round of the hash. |
| IndexResidues.RowDistinct | src/addressing.rs:212-228 | Consecutive indices of one decade, at most 2^k of them, leave pairwise different residues. |
| IndexResidues.TwoDigitRowDistinct | src/addressing.rs:212-228 | All ninety two-digit indices leave pairwise different residues from ten host bits on, the forty from 40 to 79 from seven on, whatever the identity. |
| IndexResidues.TwoDigitsMeetResidue | src/addressing.rs:212-228 | The two-digit indices meet every residue of four host bits, whatever the identity. |
| ResidueReach.AppendTurns | src/addressing.rs:217-221 | Appending a digit to an index sends the ten low bits `s` of the hash to `(s ^ (48 + digit)) * 403`. |
| ResidueReach.TwentyDistinct | src/addressing.rs:212-228 | From five host bits on, the twenty indices from 20 or those from 40 leave pairwise different residues, whatever the identity. |
| ResidueReach.MiddleDigits | src/addressing.rs:217-221 | Three digits lead the low eight bits from any multiple of sixteen to any other. |
| ResidueReach.FarMiddleDigits | src/addressing.rs:217-221 | Four digits do so for ten bits. |
| ResidueReach.EveryResidueMet | src/addressing.rs:211-228 | For every identity, every residue of up to eight host bits is that of some index of at most seven digits, every one of nine or ten that of some index of at most eight. |
| Derivation.AssignBound | src/addressing.rs:243-252 | The termination bound of the rotation, for every identity: by index 9 with up to 6 held addresses and 19 with up to 7 (to /28), by 59 with up to 17 (to /27), by 79 with up to 37 (to /25, the default /24 included), by 99 with up to 87 (to /22). |
| Derivation.FullNetHasNoIndex | src/addressing.rs:243-252 | When others hold every usable address no index is acceptable, at any prefix up to 30. |
| Derivation.RotationComplete | src/addressing.rs:238-252 | From /22 to /30, the default /24 included, the rotation succeeds if and only if some usable address is not held by another identity, and then by index 99,999,999, from /24 on by 9,999,999, at /28 by 99, from /29 on by 17. |
| Rosters.JoinKeepsSound | src/addressing.rs:238-252 | Assign-then-add keeps every stored address the derivation at its stored index, usable, one per identity, and leaves all other entries alone. |
| Rosters.LeaveMeaning | src/addressing.rs:238-252 | A leave takes exactly one identity off the roster. |
| Rosters.RunIsSound | src/addressing.rs:211-252 | The same over every run of joins and leaves from an empty roster, prefixes up to 30. |
| Rosters.SmallMeshAlwaysAdmits | src/addressing.rs:238-252 | A roster of at most 7 members (to /28), 17 (to /27), 37 (to /25) or 87 (to /22) admits any identity, by index 19, 59, 79 or 99. |
| Rosters.CapacityOfRuns | src/addressing.rs:229-235 | A roster never exceeds 2^(32-prefix) - 2 members. |
| Rosters.FullRosterAdmitsOnlyMembers | src/addressing.rs:238-252 | At that size an index is free if and only if the identity is already on the roster. |
| Rosters.AdmittedIffRoom | src/addressing.rs:211-252 | From /22 to /30, after every run of joins and leaves, an identity is admitted if and only if it is on the roster or the roster is below 2^(32-prefix) - 2 members. |
| Rosters.EverySeatIsTaken | src/addressing.rs:211-252 | From /22 to /30, that many different identities, whoever they are and in any order, all get a seat: 254 on the default /24. |
| Rosters.FindMemberMeaning | src/addressing.rs:89-91 | The lookup returns a member with the identity, and nothing if and only if there is none. |
| Rosters.RestartCheck | src/addressing.rs:72-106 | A roster built in a subnet passes the restart check there for everyone; under a subnet that does not overlap it passes for exactly the non-members. |
| NodeSubnets.CreateDefaultSeparateIff | spec/addressing.py:1818-1837 | A create without a subnet keeps the node's subnets pairwise disjoint if and only if one of 4097 blocks from the candidate on is free. |
| NodeSubnets.ActMeaning | spec/addressing.py:1818-1841 | An explicit create and an unforced join are taken if and only if no network of the node shares an address with them; a default create adds a subnet of the candidate's size, a leave removes the one network named. |
| NodeSubnets.RunKeepsSeparate | spec/addressing.py:1818-1841 | Over every run of default creates within the search bound, explicit creates, unforced joins and leaves, the node's subnets are pairwise disjoint. |
| NodeSubnets.DerivedApart | spec/addressing.py:2028-2037 | No address derived on one network of a node equals one derived on another, prefixes up to 30. |
| NodeSubnets.RosterStaysWithItsNetwork | src/addressing.rs:84-106 | A roster passes the restart check under its own network and fails it under every other network of the node, for every member. |
| Cidr.OctetIff | src/addressing.rs:162-165 | An octet is accepted in exactly one spelling, the printed one. |
| Cidr.QuadIff | src/addressing.rs:162-165 | A dotted quad parses to an address if and only if it is that address printed. |
| Cidr.CidrRoundTrip | src/addressing.rs:157-172 | Parsing the printed `base/prefix` returns the same subnet, for every base and prefix 0 to 32. |
| Cidr.U8Iff | src/addressing.rs:166-169 | A prefix is accepted in exactly these spellings: an optional plus, any zeros, then the printed number. |
| Cidr.AcceptedTextIff | src/addressing.rs:157-172 | A text parses to a subnet if and only if, around its first slash and once trimmed, it is the printed base and such a spelling of a prefix of at most 32. |
| Cidr.BlanksAreAccepted | src/addressing.rs:162-169 | Spaces, tabs and line ends around base and prefix are ignored. |
| Cidr.SpacesAre | src/addressing.rs:162-169 | What trimming removes are the 25 code points with the Unicode property White_Space. |
| Cidr.PrintedDefault | src/addressing.rs:19-27 | The default subnet prints as 10.88.0.0/24. |
| Cidr.OptionRoundTrip | src/addressing.rs:178-198 | An optional subnet, `None` included, survives serialization and deserialization. |
| Hostnames.SanitizeMeaning | src/hostname.rs:39-64 | On the raw text: before its first dot, or its end, the name starts at the first ASCII letter or digit and is as much of what follows as fits in 63 characters and ends in one, capitals made small, digits and small letters kept, all else a hyphen. |
| Hostnames.FirstLabelMeaning | src/hostname.rs:46 | The first label is what stands before the first dot, or everything. |
| Hostnames.SanitizeNoneIff | src/hostname.rs:45-64 | Nothing survives if and only if every ASCII letter or digit has a dot before it. |
| Hostnames.SanitizedIsValid | src/hostname.rs:45-75 | Every sanitized name passes the validity check. |
| Hostnames.FixedPointsAreValidNames | src/hostname.rs:45-75 | Sanitizing leaves a name alone if and only if it is valid. |
| Hostnames.SanitizeIdempotent | src/hostname.rs:45-64 | Sanitizing twice is sanitizing once. |
| Hostnames.ResolveCollision | src/hostname.rs:102-113 | The counting loop terminates with a name that is not taken and equals `Resolve`. |
| Hostnames.FreeSuffix | src/hostname.rs:106-111 | The suffix found is the least free one and at most the number of distinct taken names, so `unreachable!()` is never reached. |
| Hostnames.ResolveMeaning | src/hostname.rs:102-113 | A free name is kept; a taken one gets the least free suffix, at most the number of taken names. |
| Hostnames.RenamingKeepsValidIff | src/hostname.rs:66-113 | For a valid desired name the result is valid if and only if the name is free or some suffix that keeps it within 63 characters is. |
| Hostnames.LongNameIsRenamedInvalid | src/hostname.rs:102-113 | Every valid taken name of at least 62 characters is renamed to an invalid one. |
| Hostnames.RenamingCanInvalidate | src/hostname.rs:102-113 | One such name, so renaming does not keep names valid. |
| Hostnames.AdmittedNameIsFree | src/hostname.rs:77-100 | An assigned name is never one of another identity, and an invite-bound one is assigned verbatim. |
| Hostnames.AdmissionMeaning | src/hostname.rs:87-100 | An invite-bound name is refused if and only if it is taken, and else assigned as it is; a joiner's own name is never refused, and renamed if taken. |
| Hostnames.EventMeaning | src/hostname.rs:77-100 | An admitted member gets the very name it asks for if and only if nobody else has it; a refusal changes nothing, a removal only its member. |
| Hostnames.RunKeepsNamesDistinct | src/hostname.rs:77-100 | Over every run of admissions and removals no two members share a name. |
| Checksum.WriteChecksum | benches/forward.rs:123-136 | The in-place summing, folding and storing terminates, changes only the checksum word, and leaves a header that both checks accept. |
| Checksum.FoldMeaning | benches/forward.rs:130-132 | Folding preserves the sum modulo 65535 and reaches zero only from zero. |
| Checksum.WrittenIsAccepted | benches/forward.rs:125-136 | For every header the written checksum makes the one's-complement sum 0xFFFF and equals a fresh computation. |
| Checksum.AcceptsIff | src/packet.rs:216-230 | Comparing with a fresh checksum is the RFC 1071 receiver rule, except that it refuses a field of all ones over a non-zero rest. |
| Checksum.AcceptsIffBytesHold | src/packet.rs:216-230 | On bytes: the check accepts exactly when bytes 10 and 11 bring the other nine words to a multiple of 65535, and are all ones only over nothing. |
| Checksum.WrittenBytes | benches/forward.rs:125-136 | Writing the checksum makes it hold and changes bytes 10 and 11 at most. |
| Checksum.KnownHeader | src/packet.rs:768-784 | A header from practice has the checksum 0xB1E6. |
| Checksum.OneWordChangeUnnoticedIff | src/packet.rs:216-230 | Changing one 16-bit word of an accepted header goes unnoticed if and only if it swaps 0x0000 and 0xFFFF outside the checksum over a non-zero remainder. |
| Checksum.ExtraNotIsWrong | spec/addressing.py:302-329 | The historical extra complement rejects every accepted header; of headers valid by the receiver rule it passes exactly those with an all-ones field over a non-zero rest. |
| Checksum.SecondZeroIsLetThrough | spec/addressing.py:302-329 | One such header, so the extra complement does not refuse everything. |
| Ipv4Fragments.FragmentAllocating | benches/forward.rs:173-199 | The splitting loop yields the payload slices under the copied header, or nothing for a packet that fits or a limit below 28. |
| Ipv4Fragments.SlicesCarryPayload | benches/forward.rs:182-198 | The slices carry the payload in order, byte for byte, each within the limit. |
| Ipv4Fragments.SliceBytes | benches/forward.rs:182-198 | A slice keeps the header except for its length in bytes 2 and 3. |
| Ipv4Fragments.FragmentIpv4 | src/packet.rs:188-307 | The full fragmenter's loop computes `Fragment`: leaves alone what fits, short packets, limits below 28, options, bad checksums and packets with a byte past 65528, else writes absolute offsets and inherited More-Fragments. |
| Ipv4Fragments.FragmentBytes | src/packet.rs:235-304 | On bytes, for every packet that is split: with `step` the largest multiple of eight that fits, piece `i` carries the payload from `i * step` on, its length in bytes 2 and 3, the Don't-Fragment bit, More-Fragments and the absolute offset in bytes 6 and 7, a checksum that holds, and every other header byte of the packet; one piece for every `step` bytes begun. |
| Ipv4Fragments.FragmentNoneIff | src/packet.rs:194-255 | On bytes, for all inputs: nothing is split if and only if the packet fits or is shorter than a header, the limit is below 28, the header length is not five words, its checksum does not hold, or its last byte lies past 65528. |
| Ipv4Fragments.LengthFieldExactIff | src/packet.rs:273-277 | The length field is a piece's length if and only if that is at most 65535, so for every limit up to that. |
| Ipv4Fragments.LongPieceSaysTwelve | src/packet.rs:273-277 | Beyond, the field is cut to sixteen bits: a piece of 65548 bytes says 12. |
| Ipv4Fragments.OldFlagsRightIff | spec/addressing.py:549-560 | The flags written before the fix were right for a sub-fragment if and only if the packet starts its datagram and is not a non-final fragment being ended. |
| Ipv4Fragments.PieceIsLegal | src/packet.rs:257-304 | A sub-fragment of a legal packet is legal, has the right absolute offset, flags and bytes, a valid checksum, and belongs to the same datagram. |
| Ipv4Fragments.FragmentRefusesIff | src/packet.rs:248-255 | A trusted packet above a workable limit is refused if and only if its last byte lies past 65528; the pieces of every other one start at their exact offsets, none truncated to fit its field. |
| Ipv4Fragments.GuardIsConservative | src/packet.rs:248-255 | A packet at offset 65520 with ten payload bytes is refused although its pieces would start in range; it is not legal. |
| Ipv4Fragments.FragmentTiles | src/packet.rs:188-307 | Any legal packet or fragment above any limit of at least 28 is split into two or more pieces that tile exactly its byte range, fit the limit, and keep its header fields. |
| Ipv4Fragments.ChainTiles | src/packet.rs:174-181 | Starting from a legal packet or from any fragments that tile a byte range, as a kernel makes them, every chain of re-fragmentations, of any pieces to any sizes, leaves fragments of the same datagram that tile exactly that range, More-Fragments clear only at the datagram's end. |
| Ipv4Fragments.HopMeaning | src/packet.rs:174-181 | A hop puts the two or more pieces of the fragment it meets in its place, or changes nothing. |
| Ipv4Fragments.ChainReassembles | src/packet.rs:168-181 | Reassembling the pieces of a datagram, whole or already fragmented, after any chain and in any order returns its payload. |
| Ipv4Fragments.WholePacketReassembles | src/packet.rs:168-181 | In particular one whole legal packet, after any chain. |
| Ipv6Envelopes.DecodeEncode | src/packet.rs:378-388 | Every envelope, also one without payload, is read back from its wire form. |
| Ipv6Envelopes.EncodeDecode | src/packet.rs:532-546 | Every readable datagram is the wire form of what is read from it, up to the spelling of a set flag. |
| Ipv6Envelopes.IpPacketsAreNotEnvelopes | src/packet.rs:309-312 | A datagram whose version nibble is 4 or 6 is never taken for a fragment. |
| Ipv6Envelopes.FragmentIpv6 | src/packet.rs:347-395 | The splitting loop yields the envelopes of the packet, each within the limit, and refuses packets that fit, limits without room and packets past 65535 bytes. |
| Ipv6Envelopes.SplitBytes | src/packet.rs:366-392 | On bytes: one envelope for every `maxSize - 8` packet bytes begun, with marker, id, offset and bytes in place, the flag clear on the last alone. |
| Ipv6Envelopes.SentAreStarts | src/packet.rs:366-392 | The envelopes sent are exactly those of the cut offsets. |
| Ipv6Reassembly.Ipv6Reassembler.Accept | src/packet.rs:532-586 | One datagram changes the sets in flight and is answered as `Step` prescribes: every readable envelope collects sets left alone for five seconds, one past the MTU is rejected and drops its id's set, a new id past sixteen evicts the longest untouched set. |
| Ipv6Reassembly.StepMeaning | src/packet.rs:532-586 | The whole effect of a datagram, on its bytes and in numbers: collection at 5000 milliseconds, rejection past 1280 bytes, room made for a seventeenth set by dropping the one idle longest, and what its id's set becomes or delivers. |
| Ipv6Reassembly.StaleSetIsIgnored | src/packet.rs:539-586 | A set left alone for five seconds contributes nothing: outcome and effect are those without it. |
| Ipv6Reassembly.AssembledHoldsPiece | src/packet.rs:489-503 | Whatever pieces a peer sent, what is delivered is as long as the total and holds every one of them at its offset. |
| Ipv6Reassembly.StepKeepsBounds | src/packet.rs:532-586 | Whatever a peer sends, at most 16 sets stay in flight, every piece they hold ends within 1280 bytes, and nothing longer is delivered. |
| Ipv6Reassembly.RunKeepsBounds | src/packet.rs:532-586 | The same over every run. |
| Ipv6Reassembly.AssemblesIffAll | src/packet.rs:484-503 | The received pieces of a packet assemble, to exactly the packet, if and only if none is missing. |
| Ipv6Reassembly.RunTracks | src/packet.rs:532-586 | Until the last missing piece the reassembler holds exactly the pieces that arrived, whatever else arrives within the limits. |
| Ipv6Reassembly.CompletesExactlyAtLast | src/packet.rs:532-586 | Envelopes of one packet in any order, with duplicates and other traffic within the limits, are answered by the whole packet exactly when the last missing piece arrives, and by waiting before. |
| Ipv6Reassembly.AnyOrderDelivers | src/packet.rs:532-586 | Every run within the limits in which all envelopes of a packet arrive, in any order, repeated and between other datagrams, delivers exactly the packet, and answers waiting to its envelopes before that. |
| Ipv6Reassembly.QuietConnectionDelivers | src/packet.rs:532-586 | On a connection that carries one packet only, gaps below five seconds between arrivals are all it needs, however long the transfer takes. |
| Ipv6Reassembly.RunExists | src/packet.rs:532-586 | Every sequence of datagrams has a run, so the statements about runs are about something. |
| Ipv6Reassembly.OversizeNeverCompletes | src/packet.rs:548-551 | Over every run, with any timing, repetitions, evictions and other traffic, each envelope of a packet above the MTU is stored if it ends within the MTU and rejected otherwise; none completes. |
| Generations.NetworkState.Publish | src/daemon/mesh/publish.rs:40-76 | A publish replaces the record exactly when its read fails or finds nothing or a strictly lower generation; it keeps the record in order if and only if the read succeeds, or the record is absent, the same, or of lower generation. |
| Generations.NetworkState.Poll | src/daemon/mesh/reconverge.rs:389-486 | A poll that reads a newer record, or a tied one with a different hash, adopts its generation and shared part and keeps its own local part; it never lowers the generation. |
| Generations.NetworkState.BumpGenerationAndRefresh | src/daemon/mod.rs:459-466 | A local mutation installs the new content one generation up. |
| Generations.EventMeaning | src/daemon/mesh/reconverge.rs:389-486 | What each event does to which node: a mutation goes one generation up, a joiner and a reloaded node agree with the record, and only publishes change it. |
| Generations.RecordKeptIff | src/daemon/mesh/publish.rs:40-76 | Over every run, stale restarts included, every event leaves the record alone or moves it to a higher generation if and only if every publish whose read fails has nothing to lose. |
| Generations.RecordNeverGoesBack | src/daemon/mesh/publish.rs:40-76 | After every such run the record is the one before or of strictly higher generation. |
| Generations.ReadsMakeSafe | src/daemon/mesh/publish.rs:40-76 | Runs whose publishes all read the record are such runs. |
| Generations.NodesNeverGoBack | src/daemon/mesh/reconverge.rs:26-34 | Over every run without restarts no node's generation decreases. |
| Generations.Converges | src/daemon/mesh/reconverge.rs:389-486 | From any state in which members are not ahead of the record, ties included, a quiet stretch where every coordinator publishes and then one where every node polls leaves all nodes in agreement with the record on generation and shared part. |
| Generations.EveryHistoryConverges | src/daemon/mesh/reconverge.rs:389-486 | The same after every history from the network's beginning in which no failed read took the record back. |
| Generations.ConvergedIsFixed | src/daemon/mesh/reconverge.rs:26-34 | A network in agreement is a fixed point of publishing and polling. |
| Generations.SettledIff | src/daemon/mod.rs:436-457 | After convergence, and after any quiet run that follows, a node equals the record, and stops fetching it, if and only if its local part was the publisher's all along; every other node keeps fetching. |
| Generations.AgreedIsNewest | src/daemon/mesh/publish.rs:40-76 | What is agreed on is the record or a coordinator's snapshot from when mutations stopped, whole, and nothing present then had a higher generation. |
| Generations.OldPollerStuck | src/daemon/mesh/reconverge.rs:17-25 | Under the poller without the tie rule a node tied on a different shared part differs from the record after every quiet run. |
| Generations.OldPollMeaning | src/daemon/mesh/reconverge.rs:17-25 | That poller adopts exactly what is strictly newer. |
| Generations.TieIsReachable | src/daemon/mesh/reconverge.rs:17-25 | Such ties are reachable for every two different contents. |
| Generations.BlindPublishWedges | src/daemon/mesh/publish.rs:28-76 | The one coordinator of a converged network that restarts from an older copy and whose read fails takes the record back, and after every later quiet run record and members still differ. |
| Generations.WedgeIsReachable | src/daemon/mesh/publish.rs:28-76 | Such a network is reachable, for every content. |
| Generations.GuardedRestartHeals | src/daemon/mesh/create_join.rs:74-85 | When the reads of publishes succeed, every quiet run in which the restarted node polls leaves the network as it was before the restart, except that the node keeps the old copy's local part. |
| Invites.InviteBook.ConsumeInvite | src/membership.rs:466-490 | Check, removal and return in one step: succeeds exactly for a stored, unrevoked secret that is permanent or unexpired, and bumps the generation. |
| Invites.InviteBook.RestoreInvite | src/membership.rs:496-511 | A consumed entry is put back unchanged exactly when it has not expired and its slot is free; no stored entry is overwritten. |
| Invites.InviteBook.RevokeInvite | src/membership.rs:445-461 | Revoking marks the one stored invite whose id starts with the given text, and refuses, changing nothing, when there is none or more than one. |
| Invites.RevokeMeaning | src/membership.rs:445-461 | The one stored invite whose id starts with the text is marked, its id and expiry kept, and nothing else changes; without exactly one nothing does. |
| Invites.RevokedNeverAdmits | src/membership.rs:441-478 | Once a stored invite alone has been named in a revocation, no continuation admits anyone with it. |
| Invites.ApplyConserves | src/daemon/mesh/accept.rs:187-242 | Every event keeps each minted secret in exactly one place. |
| Invites.InvitesAreConserved | src/daemon/mesh/accept.rs:187-242 | Over every interleaving of mint, consume, admit, deny, revoke and time, a minted invite is in exactly one of stored, held by one redeemer, spent or dropped. |
| Invites.AtMostOneAdmission | src/membership.rs:479-490 | Over every interleaving no secret admits twice. |
| Invites.InviteAdmits | src/daemon/mesh/accept.rs:187-242 | A fresh invite, permanent or in time, admits its redeemer, is spent and gone from the book. |
| Invites.GoodUntilUsedOrExpired | src/membership.rs:492-511 | A permanent or unexpired, unspent invite that nobody is redeeming is stored, and redeeming it works if and only if it is not revoked. |
| Invites.DenyUndoesConsumeIff | src/daemon/mesh/accept.rs:187-242 | A denied join leaves the book exactly as it was if and only if the invite has not expired meanwhile; a permanent one never has. |
| Invites.SplitAdmitsAnyNumber | spec/membership.py:2225-2230 | The former split check-then-remove admits any number of redeemers on one secret. |
| Invites.OldHalves | spec/membership.py:2225-2230 | Its first half lets through exactly what is redeemable and removes nothing; its second admits whoever was let through. |
| ConfigCache.ConfigLoader.Load | src/config/storage.rs:506-531 | A load returns the cached value on a trusted matching fingerprint and otherwise stores what it reads later under the fingerprint it took before. |
| ConfigCache.LoadWriteLoad | src/config/storage.rs:506-531 | Load, one write stamped at a grain of at most 2000 milliseconds, load: the second returns the new files. |
| ConfigCache.LoaderIsTransparentIff | src/config/storage.rs:353-355 | With the loader's own window the cache is transparent over all orderly runs if and only if stamps are at most 2000 milliseconds coarse. |
| ConfigCache.LoaderDistrustsIff | src/config/storage.rs:458-464 | A fingerprint is distrusted if and only if something is stamped less than 2000 milliseconds before it. |
| ConfigCache.ServedIff | src/config/storage.rs:476-491 | A cached value is served if and only if its fingerprint is trusted and settings, directory stamp and every network file have the same stamp and length. |
| ConfigCache.FullLoadShows | src/config/storage.rs:533-586 | A full load shows the settings and every network file, and each change to them. |
| ConfigCache.WriteStamps | src/config/storage.rs:334-341 | A change stamps the file it writes, and the directory exactly when the set of files changes. |
| ConfigCache.WriteKeepsFaithful | src/config/storage.rs:342-355 | A write after a trusted fingerprint shows in a stat, as long as stamps are no coarser than the window. |
| ConfigCache.CachedLoadIsRightIff | src/config/storage.rs:476-531 | Over every run of writes, saves, edits, removals and overlapping loads, writes between fingerprint and read included, with stamps no coarser than the window: a cached load returns what a full reload would, if and only if it is not a hit on settings that were absent when fingerprinted and there when read. |
| ConfigCache.CacheIsTransparent | src/config/storage.rs:476-531 | So it does whenever settings are never removed or never appear while a load runs. |
| ConfigCache.RemovedSettingsAreServed | src/config/storage.rs:476-531 | A run, at any stamp granularity and window, that serves settings which no longer exist. |
| ConfigCache.ReverseOrderIsStale | src/config/storage.rs:519-527 | Reading before taking the fingerprint would serve the old contents after any write in between. |
| ConfigCache.StaleRun | src/config/storage.rs:342-355 | For every window below the stamp granularity, zero included, there is a run that serves a stale value. |
| ConfigCache.TransparentIff | src/config/storage.rs:342-355 | Over all such runs the cache is transparent if and only if the stamp granularity is at most the window. |
| ConfigCache.SettledFilesAreServed | src/config/storage.rs:347-350 | Once every file is a window old, a load is followed by hits until the next write. |

## Left out

- GatewayDerivableIff: exact from /22 to /30; below /22 only NeverTheGateway's half is shown, as the other needs every residue of more than ten bits to be met.
- RotationComplete: below /22 only FullNetHasNoIndex's half is shown, beside the bounds of AssignBound. The index bounds from /22 to /27 are not the least ones.
- AssignBound: the rosters it covers are those that counting residues of short indices reaches, not the largest.
- Generations.Converges: a publish is one atomic step; a write that follows a read overtaken by another write is modelled only as a publish whose read fails. The 64-bit limit of the counter, nuke tombstones and the roster tie-break on reconnecting are not modelled.
- CompletesExactlyAtLast: the limits are the reassembler's own, no seventeenth set opened and no five-second gap; what an evicted or collected packet's later envelopes do is bounded by RunKeepsBounds only.
- ResolveCollision: the suffix counter is unbounded in the model; its bound shows that 32 bits suffice below 2^32 - 1 taken names.
- Prefix length 0 in masks and search, where the source shifts out of range.
- `derive_ipv6` and the other IPv6 address functions: byte copies of an opaque hash.
- `generate_hostname` and `machine_hostname`: a system call and randomness.
- The user-facing warning and error texts of `src/addressing.rs`, including `subnet_change_warning`.
- Forced creates and joins, which may overlap by design, and restores of networks joined long ago.
- Collisions with physical interfaces, which depend on the host.
- Backpressure, buffer pooling and allocation on the send paths.
- Replay of an invite at a second coordinator, which the requirement itself excludes.
- Nuke consensus, certificates, Tor, Veilid and path selection.
- `src/control.rs`, `src/config.rs`, `src/ipc.rs`, `src/lib.rs`, `src/shutdown.rs`, `build.rs`: framing around foreign formats, re-exports and build steps.
- Configuration files whose times are set by hand, removal of the networks directory itself, and files that change while one fingerprint or one read is under way.
- A join that is cut off between consuming its invite and the verdict: its invite stays held.
