# SCION headers, addresses and path policies in Dafny

This project models the parts of the SCION C++ library where bits, bytes and text are taken apart
and put together again, together with the two stateful components that build on them: the
surrogate table of the interposer and the path policies. A little-endian host is assumed, because
the library swaps bytes there.

- **Bit streams** (`Words`, `BitStream`). The streams shift fields through one 64-bit word. They
  are proved to append to, and remove from, a plain bit sequence, for every cursor position, and
  any list of fields written is read back.
- **Paths** (`ScionPath`, `PathReversal`, `PathLaws`, `RawPath`). The in-place reversal permutes
  the bytes of a packed path. It is proved to be path reversal under the decoding the header
  readers use, to be its own inverse, and to keep the expiry time.
- **Checksums** (`Checksum`, `Ipv4Header`). The lane-parallel sum equals the scalar one. The single
  carry fold, the incremental update and the self-checksumming IPv4 header each get the exact
  condition under which they meet RFC 1071 and RFC 1624.
- **Address text** (`Text`, `IpText`, `IpTextLaws`, `IpTextCode`, `IsdAsnText`, `EndpointText`).
  RFC 5952 output and RFC 4291 input, AS numbers in both forms, the split of host and port, and
  the round trip of whole endpoints.
- **Mapping and surrogates** (`Address`, `Surrogates`). The static mapping into fc00::/8 is a
  retraction; with the table of surrogates it is one faithful translation over every run.
- **ID-INT** (`Tlv`, `IdIntHeaders`, `IdIntEntries`, `IdIntExtension`). The nested telemetry
  extension is written, found among other options and read back for any number of entries.
- **Policies** (`PathOrdering`, `PathPolicy`, `PolicySets`). A chain of stable sorts amounts to
  one lexicographic order; inheritance and failover, built in one pass, never run in circles.

Each loop of the program is a method with invariants that is proved equal to a function or
predicate; what the library promises is then proved about that function as lemmas.

Where the code does not do what its documentation says or its error handling intends, the model
follows the code. The members named give the exact conditions and the inputs:

- A compressed IPv6 text that ends in a double colon behind two or more groups is refused by the
  parser, so `2001:db8::` is printed and not read. This happens exactly when the chosen zero run
  starts at field 2 or later and ends at field 8 (`IpTextLaws.ParseFormat`, `TrailingRunIsLast`,
  `RefusedText`).
- An IPv4 address in the eighth group makes the IP parser store behind its array of eight fields,
  as in `1:2:3:4:5:6:7:1.2.3.4`. It happens exactly when the first seven groups are read and the
  next one is longer than four characters and an IPv4 address (`IpTextCode.Parse`,
  `IpTextLaws.OverrunText`). What is returned if the stray store has no other effect is in
  `IpTextLaws.OverrunOutcome`; printed addresses never cause it (`PrintedNeverOverruns`).
- An incomplete option in an extension header is not reported; the scan goes on behind its type and
  length and takes what follows for options. The scan agrees with one that reports the error
  exactly when every option it reaches is complete (`IdIntExtension.StrictAgrees`,
  `UnreportedOption`, `DataTakenForExtension`, `DataTakenForOption`).
- Some surrogate configurations make the interposer translate an address to another one. Which
  addresses a configuration carries is exact for every configuration, every address and every run
  (`Surrogates.FaithfulExactly`, `CarriesOnce`, `NotCarried`, `RepeatedSurrogate`, `CarriedTwice`).
- Addresses in ISD-ASN 0-0 are mapped to where surrogates are allocated, so an allocation can take
  their meaning away; other addresses are safe from that (`Surrogates.NeverExposed`,
  `ExposedIsTaken`). The configuration in the manual has such an address (`ManualExample`).
- AS numbers: decimal text is accepted up to 48 bits, two hexadecimal groups are accepted as if a
  zero group followed, and groups may have leading zeros beyond four digits, where the documentation
  promises 32 bits and three groups of one to four digits. These are all the departures
  (`IsdAsnText.AcceptedBeyondPromise`, `FirstBeyondPromise`, `TwoGroups`, `FiveDigits`).
- Checksums fold once and truncate, so some valid IPv4 headers are refused by the reader of their
  own writer (`Ipv4Header.SelfChecksum`, `RefusedHeader`), and a whole buffer has the one's
  complement sum only where no carry is lost (`Checksum.BufferLaw`, `PacketLaw`). The incremental
  update takes sums of several words and then may lose a carry or gain a wrap-around, as for 0 with
  0x10000 added or 0xffff with 0x10000 taken away (`Checksum.UpdateLaw`, `TwoWordsDisagree`); only
  the replacement of a single word always agrees (`SingleWordUpdate`), and even then one of the two
  words for zero is overlooked (`UpdateExact`, `SingleWordExact`).
- A padding option cannot span more than 257 bytes, so the size announced for an ID-INT extension
  is the size written only up to that padding (`IdIntExtension.SizeOnWire`, `SizeMissed`).
- Off a byte boundary `advanceBytes` moves twice, and the first move stays done when the second one
  fails; 16- and 32-bit accesses come out byte-swapped, and a 64-bit write puts 32 bits on the
  wire. The contracts of the stream methods say so.
- A traffic matcher that names the default policy is refused, even where the document defines it,
  and one that names no policy is accepted although the manual asks for one; it never decides
  (`PolicySets.PolicySet.Load`, `DefaultNotNamed`, `GetPolicyIndex`).

## Model

| member | source | states |
|---|---|---|
| BitStream.ReadStream.SerializeBits | include/scion/bit_stream.hpp:286-313 | a read of up to 57 bits returns the next bits of the stream as a number and removes exactly them; it fails exactly when they are missing or too wide, and then nothing moves |
| BitStream.ReadStream.AdvanceBits | include/scion/bit_stream.hpp:315-327 | skips exactly the bits asked for, or nothing when they are missing |
| BitStream.ReadStream.AdvanceBytes | include/scion/bit_stream.hpp:329-338 | at a byte boundary skips whole bytes or nothing; off one, moves twice as far if there is room, and by the first move alone or not at all otherwise; says when the cursor stays valid |
| BitStream.ReadStream.SerializeByte | include/scion/bit_stream.hpp:340-356 | the next eight bits at any cursor position |
| BitStream.ReadStream.SerializeUint16 | include/scion/bit_stream.hpp:358-374 | network order at a byte boundary, byte-swapped off one |
| BitStream.ReadStream.SerializeUint32 | include/scion/bit_stream.hpp:376-392 | network order at a byte boundary, byte-swapped off one |
| BitStream.ReadStream.SerializeUint64 | include/scion/bit_stream.hpp:394-405 | network order, at byte boundaries only |
| BitStream.ReadStream.SerializeBytes | include/scion/bit_stream.hpp:407-416 | copies out the bytes under the cursor, at byte boundaries only |
| BitStream.ReadStream.Lookahead | include/scion/bit_stream.hpp:268-284 | a view of the next bytes, or of all that are left, without moving |
| BitStream.WriteStream.SerializeBits | include/scion/bit_stream.hpp:525-550 | appends the low bits of the value to what was written; the rest of the last byte stays zero, bytes behind it keep their content, and a failed write changes nothing |
| BitStream.WriteStream.AdvanceBits | include/scion/bit_stream.hpp:552-563 | appends zero bits, 32 at a time |
| BitStream.WriteStream.AdvanceBytes | include/scion/bit_stream.hpp:565-575 | appends zero bytes at a byte boundary; off one, moves twice, with the zeros it leaves and the first move kept when the second fails |
| BitStream.WriteStream.SerializeByte | include/scion/bit_stream.hpp:577-588 | appends eight bits at any cursor position, atomically |
| BitStream.WriteStream.SerializeUint16 | include/scion/bit_stream.hpp:590-602 | appends sixteen bits, byte-swapped off a byte boundary, atomically |
| BitStream.WriteStream.SerializeUint32 | include/scion/bit_stream.hpp:604-616 | appends 32 bits, byte-swapped off a byte boundary, atomically |
| BitStream.WriteStream.SerializeUint64 | include/scion/bit_stream.hpp:618-630 | appends 64 bits at a byte boundary and only 32 off one |
| BitStream.WriteStream.SerializeBytes | include/scion/bit_stream.hpp:632-640 | copies bytes in at a byte boundary, atomically |
| BitStream.WriteStream.Lookback | include/scion/bit_stream.hpp:486-502 | a view of the last bytes written, or of all of them |
| BitStream.WriteStream.UpdateChksum | include/scion/bit_stream.hpp:511-523 | overwrites exactly two earlier bytes and leaves the cursor where it was |
| BitStream.FieldWordBits | include/scion/bit_stream.hpp:537-544 | the shifts and the OR-merge put the field behind the occupied bits of the current byte and zeros behind it |
| BitStream.Extract | include/scion/bit_stream.hpp:301-309 | shifting left and right cuts exactly the field out of the 64-bit word |
| BitStream.WriteFields | include/scion/bit_stream.hpp:525-550 | writing a list of fields produces their big-endian concatenation |
| BitStream.ReadFields | include/scion/bit_stream.hpp:286-313 | reading the widths back gives every value cut to its width |
| BitStream.RoundTrip | include/scion/bit_stream.hpp:286-313 | any finite list of fields written to a large enough buffer and read back gives each value modulo two to its width; both cursors end at the total width and bytes behind are untouched |
| Words.ByteSwapOfLoad | include/scion/bit_stream.hpp:301-304 | a word loaded from memory and byte-swapped is the big-endian number of the bytes |
| Words.ByteSwapInvolution | include/scion/bit_stream.hpp:590-616 | swapping twice gives the word back |
| ScionPath.ReadPathMeta | include/scion/hdr/scion.hpp:188-206 | the six reads take one 32-bit word apart and accept exactly the headers with contiguous segments and indices in range |
| ScionPath.ReadInfoField | include/scion/hdr/scion.hpp:241-249 | eight bytes taken apart into flags, segment identifier and timestamp |
| ScionPath.ReadHopField | include/scion/hdr/scion.hpp:295-304 | twelve bytes taken apart into flags, expiry, interfaces and code |
| PathReversal.ReversePathInPlace | src/path/path.cpp:53-119 | refuses exactly the paths of other types or wrong size, changes nothing then, and otherwise mirrors info and hop fields in the buffer, flips the direction flags and rewrites the meta word |
| PathReversal.SwapBlocks | src/path/path.cpp:86-91 | three copies through a temporary exchange two blocks |
| PathReversal.ReverseHops | src/path/path.cpp:98-105 | the two-index loop mirrors the hop fields |
| PathReversal.FlipDirections | src/path/path.cpp:93-96 | one bit of every info field is inverted and nothing else |
| PathReversal.PackMeta | src/path/path.cpp:114-116 | the shifted fields do not overlap, so ORing them is adding them |
| PathLaws.ReversedMeta | src/path/path.cpp:107-116 | on headers the reader accepts the new word holds the mirrored indices and segment lengths and keeps the reserved bits |
| PathLaws.ReverseMetaLaws | include/scion/hdr/scion.hpp:157-184 | the mirrored header is accepted again, mirrors back, and has the current hop inside the current segment exactly when the original had |
| PathLaws.CurrentSegmentKept | include/scion/hdr/scion.hpp:172-184 | reversing the packed word keeps the current hop inside the current segment, in both directions |
| PathLaws.ShortestPath | include/scion/hdr/scion.hpp:157-184 | the laws below have instances: a path of one segment with two hop fields is well formed |
| PathLaws.SegmentsReverse | src/path/path.cpp:84-112 | dealing mirrored hop fields to mirrored segment lengths is reversing the list of segments |
| PathLaws.ReversalDecodes | src/path/path.cpp:53-119 | for every well-formed path, decoding after the reversal is reversing the decoded path, and the result is well formed |
| PathLaws.ReversalInvolution | src/path/path.cpp:53-119 | reversing twice restores every byte |
| PathLaws.InterfacesReverse | src/path/path.cpp:84-105 | the direction-adjusted interfaces of the reversed path are the original ones backwards |
| PathLaws.MinimumIsLeast | src/path/path.cpp:189-195 | the minimum is an element and no element is smaller; there is none exactly for the empty list |
| PathLaws.ExpiryUnchanged | src/path/path.cpp:186-197 | reversal does not move the earliest expiry, because every hop keeps its info field |
| RawPaths.ComputeExpiry | src/path/path.cpp:180-197 | the reading loop with its running minimum returns the minimum over the fields it reached, also on truncated buffers |
| RawPaths.ExpiryIsMinimum | src/path/path.cpp:186-197 | on a well-formed path that is the minimum over all hops of their own segment's timestamp plus relative expiry, in 32-bit arithmetic |
| RawPaths.RawPath.Assign | include/scion/path/raw.hpp:74-85 | takes over a path of at most the maximal size and leaves the buffer behind it, and refuses a longer one |
| RawPaths.RawPath.Expiry | src/path/path.cpp:168-198 | never for other path types, else the minimum |
| RawPaths.RawPath.ReverseInPlace | include/scion/path/raw.hpp:152-161 | swaps the end points exactly when the bytes were reversed; a well-formed path decodes to its reversal and keeps its expiry |
| Checksum.OnesComplementChecksumScalar | src/hdr/details.cpp:36-51 | the loop computes one carry fold of the 16-bit word sum modulo 2^32, odd byte included |
| Checksum.OnesComplementChecksumAVX | src/hdr/details.cpp:54-105 | for every buffer, length, alignment and initial value the lane-parallel sum is the scalar result |
| Checksum.AddBlocks | src/hdr/details.cpp:77-87 | eight 32-bit lanes over shuffled 16-byte blocks add up to the word sum modulo 2^32 |
| Checksum.FoldLanes | src/hdr/details.cpp:88-90 | folding the lanes adds their total to the running sum |
| Checksum.FoldLaw | src/hdr/details.cpp:49-50 | one fold is congruent to the sum modulo 65535 exactly when it stays within 16 bits |
| Checksum.BufferLaw | src/hdr/details.cpp:36-51 | for every buffer and initial value the result is the unbounded sum modulo 65535 exactly when the 32-bit wrap-arounds and the lost carry come to a multiple of 65535 |
| Checksum.PacketLaw | src/hdr/details.cpp:36-51 | for up to 65535 bytes that is when the sum neither wraps around nor loses a carry |
| Checksum.ChecksumVerifies | include/scion/hdr/details.hpp:73-81 | a sum and its checksum add up to all ones exactly when the fold was clean |
| Checksum.UpdateLaw | include/scion/hdr/details.hpp:83-95 | for all arguments the incremental update agrees with section 3 of RFC 1624 modulo 65535 exactly when the carry lost by the fold is the one gained by the 32-bit wrap-around |
| Checksum.TwoWordsDisagree | include/scion/hdr/details.hpp:83-95 | sums of two words for which the update differs from RFC 1624 even modulo 65535: one loses a carry, one gains a wrap-around |
| Checksum.SingleWordUpdate | include/scion/hdr/details.hpp:88-95 | replacing one 16-bit word always agrees, even when the subtraction wraps |
| Checksum.UpdateExact | include/scion/hdr/details.hpp:90-94 | for all arguments the word returned is the recomputed word exactly when both agree modulo 65535 and the fold is not 0x10000, which the zero normalisation overlooks |
| Checksum.SingleWordExact | include/scion/hdr/details.hpp:90-94 | for one word that leaves a single exception: taking 0xffff away from the checksum 0xffff |
| Ipv4Header.WriteIPv4 | include/scion/hdr/ip.hpp:82-123 | writes the twenty bytes with the checksum of the bytes it sees behind it patched in, or fails for lack of space |
| Ipv4Header.ReadIPv4 | include/scion/hdr/ip.hpp:82-123 | accepts exactly headers with version, length and checksum in order and returns their fields |
| Ipv4Header.HeaderSum | include/scion/hdr/ip.hpp:82-123 | the word sum of the written header is the weighted sum of its fields |
| Ipv4Header.SelfChecksum | include/scion/hdr/ip.hpp:82-123 | a written header is accepted by the reader exactly when one fold of its word sum stays within 16 bits |
| Ipv4Header.RefusedHeader | src/hdr/details.cpp:49-50 | a header with fields in range that its own reader refuses |
| Ipv4Header.RoundTripIPv4 | include/scion/hdr/ip.hpp:82-123 | writing and reading a header gives it back exactly under that condition |
| Text.NumberReads | src/addr/generic_ip.cpp:233-242 | a printed number is read back in every base from 2 to 16 |
| Text.SplitJoin | src/addr/generic_ip.cpp:190-192 | splitting joined groups at the separator gives the groups back |
| IpText.FindLongestZeroGroup | src/addr/generic_ip.cpp:283-306 | the one-pass scan over bytes returns the run the specification names |
| IpText.LongestRunIsLeftmost | src/addr/generic_ip.cpp:283-306 | that run is all zero, at least two fields long or empty, and no longer run and no equally long run further left exists, as section 4.2.3 of RFC 5952 asks |
| IpText.MakeOfFields | include/scion/addr/generic_ip.hpp:105-120 | an address made from its eight fields is the address |
| IpTextCode.ParseIPv4 | src/addr/generic_ip.cpp:147-172 | accepts exactly four decimal bytes between dots; shifting and ORing them is the dotted value |
| IpTextCode.FillZeros | src/addr/generic_ip.cpp:244-264 | the two loops over the array move the tail to the end and clear the gap, in place |
| IpTextCode.ParseFields | src/addr/generic_ip.cpp:188-265 | the loop over groups, with its rules for collapsed groups and embedded IPv4, returns exactly what the grammar says; it stores behind the array exactly when seven groups are read and a long IPv4 group follows |
| IpTextCode.Parse | src/addr/generic_ip.cpp:174-266 | as above with the zone: refused when zones are not wanted, and when empty; the texts that make it store behind its array |
| IpTextCode.FormatTo | src/addr/generic_ip.cpp:308-349 | the two printing loops produce every field outside the run exactly once and one double colon for the run |
| IpTextLaws.DottedParses | src/addr/generic_ip.cpp:147-172 | every printed IPv4 address is read back |
| IpTextLaws.ParsePrintedGroups | src/addr/generic_ip.cpp:188-265 | the fields read from printed groups are the fields of the address, or nothing when the text ends in a double colon behind two or more groups |
| IpTextLaws.ParseFormat | src/addr/generic_ip.cpp:174-349 | parsing the printed form of any address, in any style and with any zone, gives it back, or a syntax error exactly when the chosen zero run is trailing and starts at field 2 or later |
| IpTextLaws.TrailingRunIsLast | src/addr/generic_ip.cpp:318-343 | a run never ends at a dotted IPv4 ending, so a trailing run ends at field 8 |
| IpTextLaws.OverrunOutcome | src/addr/generic_ip.cpp:213-231 | a text with an IPv4 address in the eighth group is refused when more follows and otherwise accepted without its last sixteen bits |
| IpTextLaws.OverrunText | src/addr/generic_ip.cpp:221-229 | 1:2:3:4:5:6:7:1.2.3.4 is such a text, and is returned as 1:2:3:4:5:6:7:102 |
| IpTextLaws.PrintedNeverOverruns | src/addr/generic_ip.cpp:308-349 | no printed address makes the parser store behind its array |
| IpTextLaws.RefusedText | src/addr/generic_ip.cpp:197-206 | the address 2001:db8:: is printed in the form the parser refuses |
| IsdAsnText.ParseAsn | src/addr/isd_asn.cpp:61-100 | the parser with its loop of shifts and ORs returns the value or error of the specification |
| IsdAsnText.AsnAccepted | src/addr/isd_asn.cpp:61-100 | accepted are exactly decimal numbers of at most 48 bits and two or three hexadecimal groups of 16 bits |
| IsdAsnText.AcceptedBeyondPromise | include/scion/addr/isd_asn.hpp:100-102 | every documented text is accepted, and the accepted texts that are not documented are exactly decimals above 32 bits, two groups, and three groups of which one has more than four digits |
| IsdAsnText.FiveDigits | src/addr/isd_asn.cpp:75-99 | 00001:0:0 is accepted and not documented |
| IsdAsnText.DecimalBeyondPromise | src/addr/isd_asn.cpp:66-71 | every 48-bit number is accepted in decimal |
| IsdAsnText.FirstBeyondPromise | src/addr/isd_asn.cpp:66-71 | 4294967296 is accepted, and printed as 1:0:0 |
| IsdAsnText.AsnRoundTrip | include/scion/addr/isd_asn.hpp:181-202 | every 48-bit AS number is read back from its text, decimal or in groups |
| IsdAsnText.TwoGroups | src/addr/isd_asn.cpp:94-99 | two groups are accepted as if a third group of zero followed |
| IsdAsnText.IsdAsnUnion | src/addr/isd_asn.cpp:114-127 | the two numbers ORed into one word do not overlap |
| IsdAsnText.IsdAsnRoundTrip | src/addr/isd_asn.cpp:112-128 | every 64-bit ISD-ASN is read back from its text |
| EndpointText.SplitHostPort | src/addr/endpoint.cpp:34-84 | the branches that reassign the views of host and port compute the specified split |
| EndpointText.SplitIsUnambiguous | src/addr/endpoint.cpp:29-33 | host and port are split off exactly when the text has one of the four documented shapes with that host and port |
| EndpointText.AddressRoundTrip | include/scion/addr/address.hpp:92-105 | a printed SCION address is read back exactly when its host is |
| EndpointText.EndpointRoundTrip | include/scion/addr/endpoint.hpp:102-141 | printing then parsing returns the endpoint for all ISD-ASNs, ports and hosts, except the hosts refused above |
| EndpointText.PortMayBeOmitted | src/addr/endpoint.cpp:29-33 | without a port, bracketed or not, the port is zero; colons of IPv6 hosts and of AS numbers are not taken for it |
| EndpointText.IPEndpointRoundTrip | src/addr/generic_ip.cpp:355-366 | the same for endpoints without ISD-ASN, in every print style |
| Address.UnmapOfMap | include/scion/addr/mapping.hpp:128-180 | unmapping a mapped address gives its normal form |
| Address.MapOfUnmap | include/scion/addr/mapping.hpp:128-180 | mapping an unmapped address gives it back, unless a zone was lost with an IPv4 host |
| Address.UnmapInjective | include/scion/addr/mapping.hpp:161-180 | different zone-free addresses unmap differently |
| Address.MappedAlike | include/scion/addr/mapping.hpp:117-159 | two addresses map alike exactly when their normal forms agree |
| Address.ClassOfUnmap | include/scion/addr/mapping.hpp:59-89 | the class names the format unmapping finds: invalid, reserved, AS number zero, and of the other AS numbers the IPv4 classes for exactly the IPv4 hosts |
| Surrogates.AddressSurrogates.MakeSurrogate | interposer/src/interposer.hpp:60-76 | returns the known surrogate or the first free probe, and records it in both maps; the loop ends |
| Surrogates.ProbesBounded | interposer/src/interposer.hpp:66-72 | pigeonhole: probes that all hit are no more than the table has entries |
| Surrogates.AddressSurrogates.AddOrReplace | interposer/src/interposer.hpp:80-85 | binds both directions, over whatever was there |
| Surrogates.AddOrReplaceConsistent | interposer/src/interposer.hpp:80-85 | the two maps stay inverse exactly when the surrogate is not taken from an address that still holds it |
| Surrogates.AddressSurrogates.LoadConfigured | interposer/src/interposer.cpp:126-128 | the configured pairs are bound one after the other |
| Surrogates.ConfigurationValid | interposer/src/interposer.cpp:126-128 | distinct usable surrogates give a valid table that knows every configured pair |
| Surrogates.AddressSurrogates.In6ToScion | interposer/src/interposer.cpp:215-225 | the table first, then the static mapping |
| Surrogates.AddressSurrogates.MapScionToIPv6 | interposer/src/interposer.cpp:228-237 | the static mapping first, then a surrogate |
| Surrogates.RepresentResolves | interposer/src/interposer.cpp:215-237 | an address represented as IPv6 translates back to itself up to the IPv4 normal form |
| Surrogates.RunKeeps | interposer/src/interposer.cpp:228-237 | over every run in which addresses are represented the table stays valid and nothing handed out changes its meaning |
| Surrogates.FaithfulForever | interposer/src/interposer.cpp:215-237 | in every state reachable from a usable configuration, an address represented now translates back now and after any further allocations |
| Surrogates.FaithfulExactly | interposer/src/interposer.cpp:215-237 | for every configuration and address, in every state of every run and after any further steps: the representative resolves to the address exactly when the configuration carries it and no allocated surrogate stands where it is mapped to |
| Surrogates.NeverExposed | interposer/src/interposer.hpp:68-72 | outside ISD-ASN 0-0 no surrogate can be allocated where an address is mapped to |
| Surrogates.ExposedIsTaken | interposer/src/interposer.hpp:68-72 | an exposed address is resolved to another one after a single allocation with the hash value of its low half |
| Surrogates.ManualExample | interposer/man/scion-interposer.7.md:101-103 | the example configuration carries 0-0,127.0.0.1, and an allocation takes it away all the same |
| Surrogates.OwnerIsUnique | interposer/src/interposer.hpp:80-85 | without repeated surrogates each configured pair is the binding of its surrogate |
| Surrogates.RepeatedSurrogate | interposer/src/interposer.hpp:80-85 | of two unmapped addresses configured for one surrogate only the last one is carried |
| Surrogates.CarriesOnce | interposer/src/interposer.cpp:218-219 | for an unmapped address that is configured at most once the condition is a surrogate without zone that is not 4-in-6 and not configured again for another address |
| Surrogates.ReadBackIsNormal | include/scion/addr/mapping.hpp:128-180 | what comes back has the normal form of the address, and is that form when the address is mapped or already in it |
| Surrogates.NotCarried | interposer/src/interposer.cpp:126-128 | a configured mapped address and a surrogate with a zone that are not carried |
| Surrogates.CarriedTwice | interposer/src/interposer.cpp:126-128 | a surrogate with a zone is harmless when the one without it is configured for the same address |
| Tlv.Padding | include/scion/extensions/extension.hpp:76-82 | fewer bytes than the alignment, and they reach it |
| Tlv.PaddingSize | include/scion/extensions/extension.hpp:84-99 | one padding option takes up the bytes asked for exactly up to 257 |
| Tlv.InsertPadding | include/scion/extensions/extension.hpp:84-99 | appends the padding option, or fails for lack of space |
| IdIntHeaders.WriteOpt | include/scion/hdr/idint.hpp:164-213 | writes the main option, with the verifier exactly for third-party verification |
| IdIntHeaders.ReadOpt | include/scion/hdr/idint.hpp:164-213 | accepts and returns exactly what the bits mean at their offsets; an absent verifier keeps its value |
| IdIntHeaders.OptRoundTrip | include/scion/hdr/idint.hpp:156-213 | a written main option is read back whatever follows |
| IdIntEntries.ComputeMdSize | include/scion/hdr/idint.hpp:269-280 | the summing loop gives the metadata size, at most 42 bytes and two more than a multiple of four |
| IdIntEntries.WriteEntry | include/scion/hdr/idint.hpp:302-331 | writes an entry, with the nonce exactly when it is encrypted |
| IdIntEntries.ReadEntry | include/scion/hdr/idint.hpp:302-331 | accepts exactly entries with minimum length and metadata lengths up to four, and returns their fields |
| IdIntEntries.EntryRoundTrip | include/scion/hdr/idint.hpp:302-331 | a written entry is read back with everything not on the wire set to zero |
| IdIntEntries.ReadStack | include/scion/extensions/idint.hpp:115-130 | the reading loop accepts and returns exactly what the stack means: entries with padding between them and nothing else |
| IdIntEntries.StackRoundTrip | include/scion/extensions/idint.hpp:94-130 | any number of entries and at most 257 bytes of padding are read back as the entries |
| IdIntEntries.ReadSciOpt | include/scion/hdr/scion.hpp:405-414 | how far a read of a plain option moves, also when the option is incomplete |
| IdIntExtension.IdInt.Write | include/scion/extensions/idint.hpp:78-107 | appends padding, main option, entries and padding; fails exactly when the entries exceed the announced length or the buffer is too short |
| IdIntExtension.IdInt.Parse | include/scion/extensions/idint.hpp:73-134 | the valid flag is set exactly when option and stack were read, and then they are what the bits mean |
| IdIntExtension.ParseExtensions | include/scion/extensions/extension.hpp:145-179 | the first extension of the list takes the ID-INT options, all others are marked absent, every other option is skipped, incomplete ones included |
| IdIntExtension.StrictAgrees | include/scion/extensions/extension.hpp:172-176 | for all bytes the loop agrees with one that returns the error of an incomplete option exactly when every option it reaches is complete |
| IdIntExtension.UnreportedOption | include/scion/extensions/extension.hpp:172-176 | the bytes 5, 255 are accepted although the option is incomplete |
| IdIntExtension.DataTakenForExtension | include/scion/extensions/extension.hpp:172-176 | behind these two bytes any short enough extension is found, though it lies in the data of the incomplete option |
| IdIntExtension.DataTakenForOption | include/scion/extensions/extension.hpp:172-176 | the same for a concrete main option without stack |
| IdIntExtension.ComputeExtSize | include/scion/extensions/extension.hpp:115-143 | the loops add up the sizes of the valid extensions behind the two header bytes |
| IdIntExtension.HeaderAligned | include/scion/extensions/extension.hpp:128-134 | that size is a multiple of four, as the program asserts, and zero exactly without valid extensions |
| IdIntExtension.SizeOnWire | include/scion/extensions/idint.hpp:68-71 | the bytes written are the announced size exactly when the trailing padding is at most 257 bytes; the end is aligned to four bytes |
| IdIntExtension.SizeMissed | include/scion/extensions/idint.hpp:101-107 | a stack of 65 words without entries: 4 of 260 bytes of padding are written |
| IdIntExtension.CoreRoundTrip | include/scion/extensions/idint.hpp:85-134 | behind the leading padding, parsing returns the option and the entry list |
| IdIntExtension.ExtensionFound | include/scion/extensions/extension.hpp:160-178 | written at any position, the extension is found by the option loop, which goes on with what follows |
| IdIntExtension.RoundTrip | include/scion/extensions/idint.hpp:73-134 | one object writes, another parses the buffer and holds the same extension |
| PathOrdering.GetMetaLatency | src/path/policy.cpp:228-240 | the sum over all links, or the maximum when any is unknown, and whether the sum left the 64-bit word on the way |
| PathOrdering.Bottleneck | src/path/policy.cpp:247-252 | no link has less bandwidth and one has exactly this |
| PathOrdering.GetMetaBw | src/path/policy.cpp:242-253 | the bottleneck, or zero when any link is unknown |
| PathOrdering.SortInPlace | src/path/policy.cpp:424-459 | the array part is rearranged in place into the stable sort |
| PathOrdering.SortRefines | src/path/policy.cpp:424-459 | a stable sort orders by key and keeps any earlier order where keys agree |
| PathOrdering.SortedLexicographically | src/path/policy.cpp:412-462 | a chain of sorts is a permutation in lexicographic order, last ordering most significant and original position deciding ties, and it is the only such arrangement |
| PathOrdering.OutcomeDetermined | src/path/policy.cpp:412-462 | paths are only permuted; without a random ordering the result is the chain of sorts |
| PathOrdering.Sort | src/path/policy.cpp:412-462 | after the method the orderings behind the last random one have been applied to some permutation of the input, which is the input itself when none is random |
| PathPolicy.MatchACL | src/path/policy.cpp:379-395 | every hop is allowed by the first entry that matches it, and refused without one |
| PathPolicy.Test | include/scion/path/policy.hpp:196-205 | local paths pass; others need interfaces, requirements, access list and sequence |
| PathPolicy.FilterInPlace | include/scion/path/policy.hpp:211-219 | the allowed paths move to the front in their order; when there is none nothing moves |
| PathPolicy.Apply | include/scion/path/policy.hpp:207-223 | the returned range is the allowed paths, sorted; when it is empty the input is untouched |
| PolicySets.PolicySet.Load | src/path/policy.cpp:488-555 | a document is accepted exactly when every record is well formed, every reference is to an earlier definition or the default, and the default has no failover; the tables then hold each policy with its inherited attributes and link |
| PolicySets.DefaultNotNamed | src/path/policy.cpp:544-551 | a matcher that names the defined default policy is refused, and one that names none is accepted |
| PolicySets.PolicySet.ParsePolicies | src/path/policy.cpp:488-537 | the pass over the policies, also when it stops at a refused one |
| PolicySets.EntryOf | src/path/policy.cpp:530-535 | each record that is not the default stands at its position with its own link |
| PolicySets.EntriesBackward | src/path/policy.cpp:510-529 | every failover link leads to a smaller index, the default or nowhere |
| PolicySets.FailoverTerminates | src/path/policy.cpp:521-529 | following failover from any policy tries at most one more policy than there are indices up to it |
| PolicySets.NearestDefinition | src/path/policy.cpp:275-306 | each attribute is the nearest definition along the chain of extended policies, with the default as of the definition |
| PolicySets.PolicySet.GetPolicyIndex | include/scion/path/policy.hpp:289-298 | the first matcher that matches and names a policy decides, else the default |
| PolicySets.PolicySet.Apply | include/scion/path/policy.hpp:266-286 | the first policy of the failover chain that leaves any path decides; when none does the paths are untouched |

## Left out

- Seeking in the streams, their error texts and call-stack traces, and big-endian hosts.
- PathMeta, InfoField and HopField are modelled when read; their writers, the SCION common header and the IPv6 header are further fixed lists of stream calls.
- The reserved fields skipped by the readers are not part of the decoded values; reversal is shown to keep them byte by byte.
- RawPath: path digests and the iteration over hops.
- PathReversal.ReversePathInPlace: the span is an array prefix, so overlapping views of the same bytes are not modelled.
- Checksum.OnesComplementChecksumAVX: the vector instructions are functions on eight lanes; the buffer address enters only through its alignment.
- IpTextCode.ParseFields: storing behind the array is reported, and the memory there is one more cell; what else the stray store changes is undefined. The array holds field values, because the two byte swaps around it cancel.
- IpTextCode.FormatTo: the text is built as a value, not through an output iterator.
- Zone identifiers are plain strings: their registry with reference counts is not modelled.
- Parsing into socket address types and host names.
- Surrogates.AddressSurrogates.MakeSurrogate: the hash is an arbitrary function; locking is not modelled, each operation is one step.
- Resolving socket addresses looks surrogates up without the 4-in-6 step (interposer/src/interposer.cpp:200-212); only the lookup of plain IPv6 addresses is modelled.
- Reading the surrogate configuration file: the pairs are given, in the order in which they are added.
- IdIntExtension.ParseExtensions: the list holds ID-INT extensions, the only kind the library defines; the authenticator option is not modelled.
- IdIntExtension.Scan: an error object asserts that it is set only once (include/scion/bit_stream.hpp:80-85), so in builds with assertions a second incomplete option stops the program, as for the bytes 5, 255, 5, 255; the model follows builds without them.
- IdIntExtension.IdInt.Parse: the contents of the object after a failed parse are unspecified.
- PathOrdering.GetMetaLatency: an overflow is reported, and the value is the unbounded sum, by which paths are also ordered.
- PathOrdering.SortInPlace: the library's stable sort is an insertion sort here; any stable sort gives the same result by the uniqueness above.
- PathOrdering.Shuffle: the random numbers are a parameter, and only that paths are permuted is stated.
- PathPolicy.Apply: the paths behind the returned range, which the program has moved from, are unspecified.
- PolicySets.PolicySet.Load: the document is a list of records with distinct names, as the JSON library delivers it; hop predicates, regular expressions and matchers are already parsed, and a record says whether that went well. A compiled sequence is a predicate over hops.
- Sockets, coroutines, the daemon client, packet translation and the C interface.
