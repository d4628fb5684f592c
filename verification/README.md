# Prosody: models of the protocol and data-structure core

Prosody is an XMPP server written in Lua with helper libraries in C. This project models its state machines, codecs
and indexed data structures in Dafny and proves what they are for. `dafny verify dfyconfig.toml` checks everything.

| file | part of the server |
|---|---|
| `Subscription.dfy`, `RosterManager.dfy`, `Storage.dfy`, `Presence.dfy` | presence subscriptions (RFC 6121), the roster that keeps them, its incremental storage, and local users exchanging subscription stanzas |
| `SessionManager.dfy` | the session registry: host tables, `bare_sessions` and `full_sessions` over the same objects |
| `Struct.dfy`, `StructLaws.dfy`, `StructBytes.dfy` | the format-driven binary codec: round trips, what formats mean as they are written, and every byte in its place |
| `StunFormats.dfy`, `Stun.dfy`, `StunVectors.dfy` | the STUN packets (RFC 8489) built on it, and where their bits and bytes stand |
| `DnsName.dfy`, `DnsNameLaws.dfy`, `DnsHeader.dfy`, `Ztact.dfy` | DNS names with compression pointers and the header (RFC 1035), and the nested tables of the resolver's cache |
| `Poll.dfy`, `RingBuffer.dfy`, `SendQueue.dfy` | the poll(2) backend, the ring buffer, the socket lists and the send queue |
| `Connect.dfy`, `ConnectHistory.dfy` | the race of parallel connection attempts, and its calls said of the events alone |
| `Lxp.dfy`, `LxpLaws.dfy`, `LxpNames.dfy`, `LxpDocuments.dfy` | the chunk-fed XML tokenizer, its scopes and names, and the reading of whole serialized documents |
| `Base64.dfy`, `Utf8.dfy`, `NibbleBits.dfy` | text codecs and 32-bit arithmetic on nibbles |
| `Bytes.dfy`, `Decimals.dfy`, `Collections.dfy` | bytes, bits, numerals and sequences shared by the others |

Objects that the server updates in place are classes whose methods are proved against a specification on values; the
main results are lemmas about those specifications, or the invariants the methods keep.

Some promises do not hold of the code in every case. Each is stated with the exact condition under which it does:

* The STUN parser moves 20 bytes past a zero-length attribute, so a packet comes back exactly when only its last
  attribute may be empty.
* A DNS label of 192 bytes or more is written with a length that reads as a pointer, so a name comes back exactly when
  all parts are below 192 bytes; a bare pointer to the root reads as the empty text where the root reads as a dot.
* Deleting an absent key from a nested table that holds just one other key deletes that other key.
* A full ring buffer is taken for an empty one by the search, and a text longer than the contents is looked for in bytes
  that are not contents any more.
* Unpacking reads behind its data exactly when alignment moves an item past the end, which needs an alignment option.
* An XML element that binds the prefix `__metatable` makes the tokenizer lose its scopes when a child ends, and one that
  binds `__newindex` cannot have children. Input with balanced tags keeps the bindings exactly when no such end occurs
  in it, and end names match exactly when no such end has an end tag as the next tag.
* An approval in advance is never taken back, not even by a cancellation: the contact is let in whenever it asks again.
* When a user who is not connected is asked by a contact approved in advance, the contact is not told of the approval,
  and the two rosters differ from then on.
* A failed connection race may report the failure again, or connect after all, while a timer or a second query is
  outstanding; it is settled exactly when none is.
* A refused write still counts in the length of the send buffer, and so refuses later ones that would fit.

## Model

| member | source | states |
|---|---|---|
| Subscription.FollowsAppendixA | core/rostermanager.lua:194-394 | every operation, sent or received, maps the nine states of Appendix A.1 of RFC 6121 to the nine states and exactly as the tables of Appendix A.2 and A.3 say |
| Subscription.StepKeepsMirror | core/rostermanager.lua:194-394 | one stanza applied at both ends keeps every pair of rosters each other's mirror |
| Subscription.RunMirrored | core/rostermanager.lua:194-394 | over every run from empty rosters, A has "to" B exactly when B has "from" A, and asks B exactly when B has A pending; no request for what is granted |
| Subscription.WithheldStanzaIsNoOp | plugins/mod_presence.lua:199-226 | the stanzas that the sender's server does not route would change nothing at the receiver |
| Subscription.StepIdempotent | core/rostermanager.lua:194-394 | repeating a stanza at once changes nothing further in either roster |
| Subscription.HandshakeGrants | core/rostermanager.lua:309-385 | a request and its approval end with the requester subscribed whatever was there before, and a cancellation from either side takes exactly that back |
| Storage.MapShim.SetKeys | core/storagemanager.lua:139-152 | the changed keys are put or removed, all other keys and other users' rows stay, and nothing is written when reading or writing fails |
| Storage.MapShim.SetRow | core/rostermanager.lua:182-184 | a whole row is replaced, all other rows stay, and a failed write changes nothing |
| RosterManager.Roster.constructor | core/rostermanager.lua:103-160 | an account without stored data starts empty, consistent and equal to its stored row |
| RosterManager.Roster.SaveRoster | core/rostermanager.lua:162-192 | a save stores the changed contact and the metadata only, raises a numeric version by one, never writes a broken roster, and leaves the stored row equal to memory when it was so before |
| RosterManager.Roster.SaveWholeRoster | core/rostermanager.lua:162-192 | saving without a contact stores the whole roster, whatever was stored before, with the same version step and the same refusals |
| RosterManager.Roster.SetContactPendingOut | core/rostermanager.lua:309-322 | a sent request sets only the ask flag, unless already subscribed, and saves |
| RosterManager.Roster.SetContactPendingIn | core/rostermanager.lua:290-298 | a received request is remembered with its stanza unless the contact is already subscribed |
| RosterManager.Roster.Unsubscribe | core/rostermanager.lua:323-337 | a sent cancellation clears "to" and the ask flag and nothing else |
| RosterManager.Roster.ProcessInboundUnsubscribe | core/rostermanager.lua:234-254 | a received cancellation clears "from" and the pending request and nothing else |
| RosterManager.Roster.ApproveContact | core/rostermanager.lua:338-365 | approving a pending request sets "from" and clears the request; without one it marks a pre-approval |
| RosterManager.Roster.ProcessInboundApproval | core/rostermanager.lua:194-208 | a received approval sets "to" and clears ask exactly when there was a request |
| RosterManager.Roster.CancelContact | core/rostermanager.lua:366-386 | cancelling clears "from" and the pending request, tells which of the two there was, and approves nobody |
| RosterManager.Roster.ProcessInboundCancellation | core/rostermanager.lua:210-232 | a received cancellation clears "to" and ask and nothing else |
| RosterManager.Roster.ProcessOutboundRequest | core/rostermanager.lua:387-394 | the ask flag is set for a listed contact without "to", and for no other |
| RosterManager.Roster.Load | core/rostermanager.lua:103-160 | loading gives the stored contacts and metadata, drops the user as a contact of himself, and marks the roster broken exactly when reading fails |
| RosterManager.LevelsSay | core/rostermanager.lua:194-208 | of the four subscription strings, "to" and "both" mean one direction, "from" and "both" the other |
| RosterManager.StoresReadBack | core/rostermanager.lua:103-192 | what a row holds reads back as the same contacts and metadata |
| RosterManager.EditSettles | core/rostermanager.lua:162-192 | writing only the changed contact and the metadata over a row that held the old roster makes it hold the new one |
| Presence.Server.ShortcutsAgree | core/rostermanager.lua:256-284 | whichever roster answers, is_contact_subscribed and is_user_subscribed say what the user's own roster says |
| Presence.Server.Dispatch | plugins/mod_presence.lua:171-229 | the sender's half of each stanza, and exactly when it is routed on |
| Presence.Server.Deliver | plugins/mod_presence.lua:231-286 | the receiver's half of each stanza, and that a new request of a contact approved in advance, and no other, is to be answered |
| Presence.Server.Outgo | plugins/mod_presence.lua:171-229 | the sender's half seen from all accounts at once: only what the sender says of this contact changes |
| Presence.Server.Income | plugins/mod_presence.lua:231-286 | the receiver's half seen from all accounts at once: only what the receiver says of this contact changes |
| Presence.Server.Exchange | plugins/mod_presence.lua:171-286 | both halves, routed or withheld, amount to the step of the protocol, with the answer that is to be sent |
| Presence.Server.Answer | plugins/mod_presence.lua:253-257 | the automatic approval goes through the sender's half of the approving user; it reaches the requester exactly when the approving user is connected |
| Presence.OutcomeMirrored | plugins/mod_presence.lua:248-257 | a stanza with its automatic approval keeps the rosters mirrored if and only if nobody is stranded; a stranded requester goes on asking while the contact believes to have granted |
| Presence.ApprovedInAdvanceButOffline | plugins/mod_presence.lua:253-257 | the concrete run: approve in advance, disconnect, be asked; the two rosters differ |
| Presence.RepeatedApprovalIsNoOp | plugins/mod_presence.lua:246-248 | the approval sent to a contact who is subscribed already changes nothing |
| Presence.ApprovedMeansInAdvance | plugins/mod_presence.lua:171-286 | over every run from empty rosters, a contact is approved in advance if and only if the user once sent `subscribed` while the contact was neither subscribed nor pending; such a contact never waits |
| Presence.SubscribedWasApproved | core/rostermanager.lua:338-386 | over every run from empty rosters, nobody is subscribed to a user who did not send that contact `subscribed` in it: a denied contact cannot let itself in |
| Presence.ApprovalInAdvanceGrants | plugins/mod_presence.lua:248-257 | whenever an approval in advance was sent in a run, a request grants the subscription at once, and the contact learns of it exactly when the user is connected |
| Presence.Server.Send | plugins/mod_presence.lua:171-286 | the rosters in memory and in storage of all accounts follow the two-party protocol, stanza by stanza with the automatic approvals, and stay mirrored if and only if no contact who is not connected is asked by someone it approved in advance |
| Presence.Server.Reload | core/rostermanager.lua:103-160 | reading an account back from storage changes nothing anyone's roster says |
| Decimals.DecimalInjective | core/sessionmanager.lua:247-253 | different counts have different numerals |
| SessionManager.SuffixedInjective | core/sessionmanager.lua:247-253 | different counts give different suffixed resources |
| SessionManager.ResourceTable.FreeName | core/sessionmanager.lua:247-253 | the "#count" search ends, with the least count whose name is unbound |
| SessionManager.Session.Retire | core/sessionmanager.lua:80-93 | a retired session keeps neither its user, host, resource and address nor its roster, and counts as destroyed |
| SessionManager.Registry.Destroy | core/sessionmanager.lua:140-176 | destroying a session takes it out of every table, drops a user entry it leaves empty, and keeps the three tables in agreement; a veto of the unbind leaves all as it was |
| SessionManager.Registry.Authenticate | core/sessionmanager.lua:178-196 | a session gets its user exactly when the prepared name is not empty; for a session that is bound already the registry stays in order if and only if the user stays the same |
| SessionManager.Registry.FreeName | core/sessionmanager.lua:247-253 | the name found is unbound for that user and every smaller suffix is bound |
| SessionManager.Registry.Welcome | core/sessionmanager.lua:220-224 | a user's first session gets one new entry object, the same in both tables; the entries of others stay the same objects |
| SessionManager.Registry.Evict | core/sessionmanager.lua:237-246 | kicking the old session destroys it, frees its name and leaves an entry to bind in, created anew when that was the last session |
| SessionManager.Registry.Arrange | core/sessionmanager.lua:220-255 | each conflict policy yields the name it promises, or a refusal, and the name is free afterwards |
| SessionManager.Registry.Enroll | core/sessionmanager.lua:257-263 | a bound session is in full_sessions and in the user's table under the same name |
| SessionManager.Registry.RollBack | core/sessionmanager.lua:267-282 | a failed roster load takes the session out of all tables again and leaves no empty entry |
| SessionManager.Registry.Bind | core/sessionmanager.lua:201-287 | binding gives exactly one of five refusals or succeeds, each under its own condition. A prepared name that is free is the name bound, whatever the policy; a taken one gives it or the least free `name#n`, gives it and destroys its holder, or is refused, as the policy says; without a prepared name, or with an empty one, the generated name takes its place. Through policies, kicks and rollback bare_sessions and host tables hold the same objects, full_sessions holds exactly the sessions reachable through them, and no user entry is empty |
| SessionManager.Registry.Place | core/sessionmanager.lua:216-282 | the part of it that touches the tables: the whole of full_sessions afterwards, for each policy, with the roster loaded or not |
| Struct.GetNum | util-src/struct.c:85-101 | the decimal number at the format position, or the default, and where the format goes on |
| Struct.ToAlignAligns | util-src/struct.c:128-138 | the padding is the least that aligns the length to the item's size, bounded by the header's alignment |
| StructLaws.SizeAsWritten | util-src/struct.c:85-127 | an integer or string option with a numeral behind it has that size, an error above 32 for an integer, and 4 or 1 without one; the format goes on behind the numeral |
| StructLaws.AlignmentAsWritten | util-src/struct.c:139-158 | an alignment option sets the alignment written behind it if and only if that is a power of two, and the native one without a numeral; the byte order stays |
| StructLaws.OtherLetters | util-src/struct.c:139-158 | spaces mean nothing, the first NUL ends a format, and any other letter is an error, which only the size of a format passes over |
| StructLaws.PacksWhen | util-src/struct.c:199-254 | packing succeeds exactly when each item finds an argument of its kind, a number of a machine word or a string that is long enough; byte order, alignment and position make no difference |
| StructLaws.ItemUnpacks | util-src/struct.c:284-350 | inside its data an item is read exactly when it is padding, an integer of 1 to 8 bytes, a string with a zero behind it, or a non-empty string of fixed size |
| StructBytes.LettersOfCTypes | util-src/struct.c:102-127 | the letters without a numeral have the sizes of their C types |
| StructBytes.ControlSetsOrder | util-src/struct.c:139-158 | after a control option the order is that of the last order letter written in the format: low byte first without one and after `<`, high byte first after `>` |
| StructBytes.OptionKeepsOrder | util-src/struct.c:102-127 | an item and its numeral leave the order as it was |
| StructBytes.PackIsAsWritten | util-src/struct.c:199-254 | every byte of what is packed: byte i of an integer is n / 256^i modulo 256, counted from the low end or, after `>`, from the high end; strings stand as they are, with their zero where the option has one; all bytes between are zero |
| StructBytes.PackedByteByByte | util-src/struct.c:160-254 | the same from any point of a format, behind any bytes |
| StructBytes.UnpackIsAsWritten | util-src/struct.c:284-350 | every value that is read is the number of its option's range, or the string, that the bytes at its place spell in the order written before it |
| StructBytes.ReadByteByByte | util-src/struct.c:257-350 | the same from any point of a format and any position |
| StructBytes.OneInTwoBytes | util-src/struct.c:139-184 | the number 1 in two bytes: without an option, after `<`, after `>`, and after both |
| Struct.PutInteger | util-src/struct.c:160-184 | the bytes of a number modulo 2^64 in either byte order, written by repeated shifting |
| Struct.GetInteger | util-src/struct.c:257-281 | the number those bytes stand for, sign-extended in two's complement when signed |
| Struct.SignExtend | util-src/struct.c:273-281 | testing the number against the mask of ones from the sign bit up, and or-ing the mask in, is two's-complement reading for every size |
| Struct.CorrectBytes | util-src/struct.c:187-197 | swapping in place reverses the bytes exactly when the order is not the machine's |
| Struct.IntRoundTrip | util-src/struct.c:160-281 | reading back a written number wraps it to the item's size and signedness, in both byte orders |
| Struct.WrapIsIdentityInRange | util-src/struct.c:160-281 | wrapping changes nothing exactly for numbers in the item's range |
| Struct.ItemRoundTrip | util-src/struct.c:199-350 | reading back one packed item gives the canonical form of its argument |
| Struct.RoundTripFrom | util-src/struct.c:199-350 | the round trip from any point of a format, between any other bytes |
| Struct.RoundTrip | util-src/struct.c:199-350 | unpacking a packed list gives it back with the position one past the data exactly when every argument fits its item |
| Struct.SizeIsPackedLength | util-src/struct.c:353-372 | the size of a format without strings is the length of whatever it packs |
| Struct.PackLoop | util-src/struct.c:199-254 | the packing loop computes the specified bytes and errors |
| Struct.UnpackLoop | util-src/struct.c:284-350 | the unpacking loop computes the specified values, position and errors, and reads behind the data where that is specified |
| StructLaws.UnsignedTest | util-src/struct.c:297-298 | the unsigned test lets an item pass if and only if it is inside the data or starts behind its end |
| StructLaws.OverReadsWhen | util-src/struct.c:284-350 | unpacking reads outside its data if and only if alignment moves some item past the end with all items before it inside |
| StructLaws.OverReadsInGaps | util-src/struct.c:284-350 | for a format without strings, from any point of it: unpacking reads outside its data if and only if the length of the data lies in a gap that alignment leaves between two items, whatever the bytes |
| StructLaws.OnlyTheLengthMatters | util-src/struct.c:284-350 | the same for a whole format and any initial position |
| StructLaws.LayoutIsMeasured | util-src/struct.c:284-372 | the items whose positions that speaks of lie within the size of the format |
| StructLaws.NoAlignmentNoOverRead | util-src/struct.c:284-350 | a format without an alignment option never reads outside its data |
| StructLaws.FittingDataIsEnough | util-src/struct.c:284-372 | nor does a format of fixed size on data at least that long, which is not too short either |
| StructLaws.AlignedLongIsReadBehindTheEnd | util-src/struct.c:284-300 | the concrete format of a byte and an aligned long, with one byte of data: the long is read behind the end |
| Struct.SizeLoop | util-src/struct.c:353-372 | the sizing loop computes the specified size and errors |
| StunFormats.PackI2I2 | net/stun.lua:159-165 | an attribute header is two big-endian 16-bit numbers |
| StunFormats.UnpackI2I2I4 | net/stun.lua:174-181 | the fixed part of a packet reads as type, length and cookie |
| Stun.TypeRoundTrip | net/stun.lua:126-157 | method and class come back from the type exactly when they fit 12 and 2 bits |
| Stun.WireRoundTrip | net/stun.lua:96-198 | a serialized packet parses back to type, transaction and attributes exactly when only the last attribute may be empty |
| Stun.EmptyAttributeHidesTheNext | net/stun.lua:183-191 | two attributes of which the first is empty: the second is lost |
| Stun.CutPacket | net/stun.lua:182-196 | attributes with values of which the last is cut off after k bytes: one byte is not seen, a piece of a header and a piece of a value are their two errors, and the padding need not be there |
| Stun.ValuesOfUnpadded | net/stun.lua:200-214 | the values found by type are those of the attributes of that type, in order, without padding |
| Stun.StrXor | util-src/strbitop.c:58-77 | the output buffer holds the bytewise exclusive or, the second operand repeated |
| Stun.XorStringTwice | util-src/strbitop.c:58-77 | applying the same key twice gives the string back |
| Stun.AddressRoundTrip | net/stun.lua:216-237 | plain and exclusive-or addresses unpack to the family, address and port that were packed |
| StunVectors.TypeBits | net/stun.lua:126-157 | the bits of method and class stand in the type where figure 3 of RFC 8489 puts them |
| StunVectors.KnownTypes | net/stun.lua:126-157 | the message types of Binding and Allocate as numbers |
| StunVectors.HeaderBytes | net/stun.lua:96-108 | the twenty bytes of the header: type, length, the cookie 2112A442, transaction id |
| StunVectors.AttributeBytes | net/stun.lua:159-172 | type, length, value, and zeros up to a multiple of four |
| StunVectors.AddressBytes | net/stun.lua:216-226 | a zero, the family, the port and the address, the last two exclusive-ored byte by byte with cookie and transaction id where that is asked for |
| StunVectors.SampleAddress | net/stun.lua:216-226 | the mapped address of section 2.2 of RFC 5769, byte by byte |
| Stun.Packet.constructor | net/stun.lua:143-157 | a new packet holds the encoded type and no attribute |
| Stun.Packet.Serialize | net/stun.lua:96-108 | the wire form, or the error of a part that does not fit |
| Stun.Packet.AddAttribute | net/stun.lua:159-172 | one padded attribute more, the others unchanged; type and length are written modulo 2^16 |
| Stun.Packet.Deserialize | net/stun.lua:174-198 | the loop over the packet reads exactly what is specified, with every error case |
| Stun.Packet.GetAttribute | net/stun.lua:200-214 | the k-th value of a type without padding, or nothing |
| Stun.Packet.AddMessageIntegrity | net/stun.lua:270-280 | the bytes that are hashed are the packet as it stands with the length of the final one, which is the final packet without its last 24 bytes; there is an error if and only if the transaction id is not whole or the hash of those bytes is not 20 bytes long |
| DnsName.EncodeName | net/dns.lua:370-378 | the labels of a name with their lengths and the root label, or an error for a length over a byte |
| DnsName.Resolver.ReadByte | net/dns.lua:389-398 | the next byte, or an error past the end of the packet without moving |
| DnsName.Resolver.ReadSub | net/dns.lua:414-419 | the bytes of the packet from the offset on, as many as asked, and fewer only where the packet ends; the offset moves all the same |
| DnsName.Resolver.ReadName | net/dns.lua:452-471 | reading ends on every packet, with the specified name and offset or the specified error |
| DnsNameLaws.PointerLeads | net/dns.lua:461-463 | for every position t below 16384, a pointer of the bytes 192 + t / 256 and t modulo 256 leads to t |
| DnsNameLaws.ReaderFollows | net/dns.lua:461-463 | where the reader goes on is the 14-bit offset of section 4.1.4 of RFC 1035 for every pointer whose upper two bits are ones |
| DnsNameLaws.ReadsTheExample | net/dns.lua:452-471 | the example packet of section 4.1.4 of RFC 1035: its four names are read as written there |
| DnsNameLaws.NameReads | net/dns.lua:452-471 | whatever section 4.1.4 of RFC 1035 spells at a position is read, with the offset just after the first pointer, or fails exactly when it takes 20 pointers or more |
| DnsNameLaws.NameReadsWhatIsSpelled | net/dns.lua:452-471 | a name is read exactly when one is spelled through at most 19 pointers; loops and truncated names are errors |
| DnsNameLaws.LabelsRoundTrip | net/dns.lua:370-471 | decoding an encoded list of non-empty dot-free labels, anywhere in a packet, returns it exactly when every label is below 192 bytes |
| DnsNameLaws.PartsOfJoin | net/dns.lua:370-378 | splitting at the dots undoes joining with dots |
| DnsNameLaws.NameRoundTrip | net/dns.lua:370-471 | decoding an encoded name gives its canonical spelling exactly when every part is below 192 bytes |
| DnsNameLaws.CanonicalKeepsParts | net/dns.lua:370-378 | the canonical spelling has the same encoding and is its own canonical spelling |
| DnsNameLaws.CompressedReads | net/dns.lua:452-471 | labels and a pointer of the bytes 192 + t / 256 and t modulo 256 read as the labels and whatever the bytes at t spell, compressed or not, ending after the pointer |
| DnsNameLaws.CompressionKeepsName | net/dns.lua:452-471 | replacing a tail by those two bytes, where its encoding stands at t, gives the same name exactly when there is any label |
| DnsHeader.HeaderRoundTrip | net/dns.lua:327-449 | an encoded header decodes to itself exactly when every field is within its width |
| DnsHeader.HeaderBytesRoundTrip | net/dns.lua:327-449 | any twelve bytes are the encoding of the header they decode to |
| DnsHeader.FieldsOfWords | net/dns.lua:421-450 | the six 16-bit words of section 4.1.1 of RFC 1035, high byte first, and of the second one each flag at its bit |
| DnsHeader.ReadHeader | net/dns.lua:422-449 | nothing for an unknown id unless forced, an error on a short packet, else all fields |
| Ztact.Store.Get | net/dns.lua:32-39 | what stands under a path of any length |
| Ztact.Store.Set | net/dns.lua:40-69 | the descent with its cut point leaves the specified tables, for putting and for deleting |
| Ztact.SetRefinesMap | net/dns.lua:31-71 | setting changes exactly one path of the finite map that the tables stand for and leaves no inner table empty; a present path that is deleted is that path |
| Ztact.DeleteIsExact | net/dns.lua:40-69 | deleting takes away the path and nothing else exactly when it is not an absent one beside a single other key |
| Ztact.DeletingTheAbsentTakesTheOther | net/dns.lua:40-69 | the concrete case in which the sibling is lost |
| Ztact.RemoveIsDrop | net/dns.lua:45-69 | dropping the lowest entry whose table holds more is removing the path and every table it leaves empty |
| Poll.State.constructor | util-src/poll.c:523-566 | a new state watches nothing and has nothing to report |
| Poll.State.Add | util-src/poll.c:116-138 | a new descriptor is watched, a known one and a full array are refused, and nothing reported changes |
| Poll.State.Set | util-src/poll.c:218-233 | the interest of a watched descriptor changes, an unknown one is refused |
| Poll.State.Del | util-src/poll.c:296-326 | exactly the descriptor goes from what is watched and from what is yet to be reported, despite the last slot moving over it in mid-scan |
| Poll.State.PushEvent | util-src/poll.c:353-399 | the scan reports one ready descriptor that was not reported yet, with its readiness, or finds there is none |
| Poll.State.Wait | util-src/poll.c:404-477 | poll() is called only when nothing is left to report; timeouts, interruptions and errors keep what is watched |
| Poll.RemovedWatched | util-src/poll.c:303-320 | swap removal removes exactly one descriptor from the map the array stands for |
| Poll.RemovedReady | util-src/poll.c:303-320 | and exactly that one from what is yet to be reported |
| Poll.WatchedSize | util-src/poll.c:296-326 | the array prefix is duplicate-free: as many slots as descriptors |
| Poll.Leftover | util-src/poll.c:353-477 | over any run of calls between two polls, what is left to report is what was ready, minus what was reported or deleted |
| Poll.ReportedOnce | util-src/poll.c:353-477 | no descriptor is reported twice between two polls, nor after it was deleted or added anew |
| Poll.AllReported | util-src/poll.c:353-477 | when nothing is left to report, every descriptor that was ready and not deleted has been reported |
| RingBuffer.Buffer.constructor | util-src/ringbuffer.c:300-314 | an empty queue of the given capacity |
| RingBuffer.Buffer.Write | util-src/ringbuffer.c:204-225 | all bytes are appended or none, and the positions stay within the array |
| RingBuffer.Buffer.WriteChar | util-src/ringbuffer.c:70-73 | one byte appended across the wrap |
| RingBuffer.Buffer.Discard | util-src/ringbuffer.c:132-147 | the front bytes go, exactly when there are so many |
| RingBuffer.Buffer.Read | util-src/ringbuffer.c:153-179 | the front bytes, across the wrap, taken or only looked at; bytes come out in the order they went in |
| RingBuffer.Buffer.Find | util-src/ringbuffer.c:81-126 | for every text: 0 on an empty or full buffer, and else the end of the first match that the loop tries up to its unsigned bound; for a text that is not empty this is the first occurrence in the contents if and only if the search is to be trusted |
| RingBuffer.TrustedWhenRight | util-src/ringbuffer.c:81-108 | a search of a buffer neither empty nor full is right if and only if the text is no longer than the contents or does not stand anywhere around the array |
| RingBuffer.LastTryIsUnsigned | util-src/ringbuffer.c:90-90 | the last position tried is the difference of the two lengths, or almost 2^64 when the text is the longer one |
| RingBuffer.FoundInFirstTurn | util-src/ringbuffer.c:81-108 | what is found at all is found within one turn around the array |
| RingBuffer.LongTextFindsStaleBytes | util-src/ringbuffer.c:81-108 | the concrete buffer that finds two bytes in contents of one |
| RingBuffer.FirstEndIsUnique | util-src/ringbuffer.c:81-108 | there is one first occurrence |
| RingBuffer.Buffer.ReadUntil | util-src/ringbuffer.c:185-198 | what is taken ends with the first occurrence, and nothing is taken when there is none, whatever the length of the delimiter; a full buffer gives nothing |
| RingBuffer.FullBufferFindsNothing | util-src/ringbuffer.c:81-108 | a full buffer does not find its only byte; one with room does |
| RingBuffer.Buffer.SplicePositions | util-src/ringbuffer.c:35-68 | negative, zero and positive indices become the array stretches that hold the Lua slice, or nothing exactly when the slice is empty |
| RingBuffer.Buffer.WrapPosition | util-src/ringbuffer.c:23-33 | exactly the positions in the contents or just behind them have one in the array, where the same byte stands |
| RingBuffer.Buffer.Sub | util-src/ringbuffer.c:233-251 | string.sub of the contents, for all indices |
| RingBuffer.LuaSubMeans | util-src/ringbuffer.c:35-68 | positions count from one and negative ones from the end, both ends are brought into the text, and nothing is left when they cross |
| RingBuffer.Buffer.ByteValues | util-src/ringbuffer.c:253-280 | the bytes of string.sub of the contents, for all indices |
| SendQueue.SocketList.Add | net/server_select.lua:739-746 | the socket is listed once; the others keep their positions |
| SendQueue.SocketList.Remove | net/server_select.lua:748-761 | only the socket goes, the last one takes its position |
| SendQueue.PairedIsBijection | net/server_select.lua:739-761 | positions 1 to n and listed sockets are in one-to-one correspondence |
| SendQueue.Connection.Write | net/server_select.lua:451-466 | data is accepted exactly within the limit, and queued bytes put an unpaused socket on the send list |
| SendQueue.Connection.SendBuffer | net/server_select.lua:563-610 | accepted bytes equal sent bytes followed by queued bytes, in order, after a full, partial or failed send |
| SendQueue.Connection.PauseWrites | net/server_select.lua:523-528 | a paused socket is off the send list and its queue is kept |
| SendQueue.Connection.ResumeWrites | net/server_select.lua:529-534 | queued bytes put the socket back on the send list |
| SendQueue.Connection.ForceClose | net/server_select.lua:392-398 | a closed connection is off the list and what it sent is a prefix of what it accepted |
| SendQueue.Connection.BufferLength | net/server_select.lua:482-486 | the length told is the queued length exactly as long as nothing was refused since the buffer was last empty |
| SendQueue.RefusalLasts | net/server_select.lua:451-466 | after a refusal, over any run of writes, sends and switches that does not empty the buffer, a write is refused if and only if less was sent than the excess of the refused write and all that was to be written since |
| SendQueue.Connection.Perform | net/server_select.lua:451-610 | any run of writes, sends and switches accepts exactly the writes, and ends with exactly the lengths, of which that law speaks |
| SendQueue.Loop.Open | net/server_select.lua:269-330 | a connection with a socket of its own joins the others in good order |
| SendQueue.Loop.Write | net/server_select.lua:451-466 | with connections that share the send list: a write keeps every other one's queue and place on the list, and all in good order |
| SendQueue.Loop.SendBuffer | net/server_select.lua:563-610 | so does a send |
| SendQueue.Loop.PauseWrites | net/server_select.lua:523-528 | so does a pause |
| SendQueue.Loop.ResumeWrites | net/server_select.lua:529-534 | so does its end |
| SendQueue.Loop.ForceClose | net/server_select.lua:392-398 | so does a forced close |
| Connect.StepKeepsInvariant | net/connect.lua:29-104 | every callback keeps: connections of the race are the undecided ones and the winner; calls are lawful; an unconnected race is under way or has failed |
| Connect.EveryRunIsLawful | net/connect.lua:29-118 | in every run onconnect is called at most once, and neither onconnect nor onfail after it |
| Connect.LosersAreClosed | net/connect.lua:66-79 | over every run from the start, each connection that connects is the one winner or is closed, and once another has won it is closed |
| Connect.NoConnectionIsForgotten | net/connect.lua:29-104 | over every run that leaves no connection undecided, each dialled connection is the winner, was closed, or was reported lost |
| Connect.SettledWhen | net/connect.lua:29-104 | the listeners are called no more exactly when the race was won or no connection, query or timer is outstanding |
| Connect.RunsEndWithAReport | net/connect.lua:29-104 | with finitely many targets a run has a bounded number of effective steps, and when nothing is outstanding it has connected or reported a failure |
| Connect.StepsAreBounded | net/connect.lua:29-104 | each effective step lowers a weight of outstanding callbacks and unused targets |
| ConnectHistory.KeepsHistory | net/connect.lua:29-104 | the fields of a race say what the events say: which connections are open, whether an open one has connected, and the error of the last attempt that was refused or lost |
| ConnectHistory.CallsByHistory | net/connect.lua:29-104 | what a further event of any run makes the race call: onfail exactly when there is no target, none is open and it is not won, with the last error there was; onconnect exactly for the first open connection that connects; close for every other one that does |
| ConnectHistory.AsksByHistory | net/connect.lua:29-104 | when it asks for one more target: when the timer finds it not won, and when the last open connection of a race that is not won is lost; a timer is started exactly for a dialled target that has more behind it |
| Connect.FailureIsReportedTwice | net/connect.lua:29-104 | a run that reports failure twice |
| Connect.ConnectionAfterFailure | net/connect.lua:29-104 | a run that connects after reporting failure |
| Connect.PendingConnection.constructor | net/connect.lua:106-118 | connecting begins with one query |
| Connect.PendingConnection.NoMoreTargets | net/connect.lua:31-43 | the callback without a target makes its step and keeps the invariant |
| Connect.PendingConnection.NextTarget | net/connect.lua:44-63 | the callback with a target makes its step, dialled or refused, and keeps the invariant |
| Connect.PendingConnection.OnTimer | net/connect.lua:55-61 | the timer makes its step and keeps the invariant |
| Connect.PendingConnection.OnConnected | net/connect.lua:66-84 | a connection event makes its step and keeps the invariant |
| Connect.PendingConnection.OnDisconnected | net/connect.lua:86-104 | a disconnection event makes its step and keeps the invariant |
| Lxp.ChunkIndependence | fallbacks/lxp.lua:39-147 | however an input is cut into chunks, events and state are those of the uncut input |
| Lxp.DrainThenFeed | fallbacks/lxp.lua:39-65 | waiting in mid-token and going on with more data is reading it all at once |
| LxpLaws.EndNamesMatch | fallbacks/lxp.lua:65-129 | over every input from the start, every end event names the innermost open element, and only the outermost scope ends nameless, if and only if no end tag follows the end of an element directly inside one that binds the prefix `__metatable` |
| LxpLaws.NamesMatchWithoutMetatable | fallbacks/lxp.lua:65-129 | in particular over every input in which no tag binds that prefix |
| LxpLaws.EndsLostOnTags | fallbacks/lxp.lua:65-129 | from every chain of scopes: an end tag arrives after the chain was lost only if the tags alone show an end of an element directly inside one that binds `__metatable` with an end tag as the next tag, and it does whenever they show it and there is no error |
| LxpLaws.EndNamesMatchOnTags | fallbacks/lxp.lua:65-129 | so over every input from the start that has no error, end names match if and only if the tags do not show that; with an error they match at least then |
| LxpLaws.DrainNests | fallbacks/lxp.lua:77-129 | while the events nest, the scopes below those an input opens stay what they were, and the tags above are those of the open elements; the chain of scopes is lost only by an end directly inside a scope that binds `__metatable` |
| LxpLaws.BindingsStayInside | fallbacks/lxp.lua:66-129 | input whose tags balance, read without an error, leaves every binding as it was if and only if no element ends directly inside one that binds `__metatable`, be that an element of the input or the innermost one around it; after such an end no scope is left. The equivalence is for states with a scope |
| LxpLaws.ScopesFollowTags | fallbacks/lxp.lua:77-129 | the same for input that leaves elements open: without a loss the scopes are the old ones and one for each open element, with a loss there are at most those of the open elements |
| LxpLaws.MetatableInputBalances | fallbacks/lxp.lua:77-112 | the concrete input whose tags balance and show the loss |
| LxpLaws.InnermostBindingCounts | fallbacks/lxp.lua:66-97 | over every input that closes only what it opened, without an error or a loss, a prefix means what the innermost open scope says that binds it, be it an older one or of an element opened since; only `__index` cannot be resolved even when bound there (see LxpLaws.OnlyTheseFail) |
| LxpLaws.OnlyTheseFail | fallbacks/lxp.lua:65-76 | a prefix cannot be resolved if and only if it is not bound and it is the key by which the tables are chained or, after the chain was lost, a name of the string library |
| LxpLaws.StartTagFails | fallbacks/lxp.lua:65-97 | a start tag is an error if and only if it is malformed, the scope around it binds `__newindex` or is lost, or its name or that of an attribute has a prefix that cannot be resolved |
| LxpLaws.ReachableIsRooted | fallbacks/lxp.lua:77-102 | every state reached from the start, by any chunks, is one the laws above speak of |
| LxpLaws.MetatableLosesTheName | fallbacks/lxp.lua:77-112 | the concrete input with an element inside one that binds `__metatable`: the outer end has no name and all scopes are gone |
| LxpLaws.NewindexIsAnError | fallbacks/lxp.lua:77-97 | the concrete input with an element inside one that binds `__newindex`: an error |
| LxpNames.PrefixedName | fallbacks/lxp.lua:66-71 | a name whose prefix is bound becomes namespace, separator and local part, for elements and attributes alike |
| LxpNames.UnboundName | fallbacks/lxp.lua:66-76 | a name whose prefix is not bound stays as it is, as an element behind the default namespace where there is one |
| LxpNames.PlainName | fallbacks/lxp.lua:66-76 | a name without a prefix is behind the default namespace as an element, and stays as it is as an attribute |
| LxpNames.NamesAreApart | fallbacks/lxp.lua:66-76 | two such names are the same only if namespace and local part are, as long as no namespace holds the first character of the separator |
| LxpNames.UnescapeEscape | fallbacks/lxp.lua:29-31 | reading the text that the server's serializer writes for any text gives it back |
| LxpNames.References | fallbacks/lxp.lua:16-27 | decimal and hexadecimal character references, and an unknown entity, which stays as it is |
| LxpDocuments.EitherQuote | fallbacks/lxp.lua:32-38 | either quote opens a value and either one closes it |
| LxpDocuments.LastValueCounts | fallbacks/lxp.lua:32-38 | of an attribute written twice the later value counts |
| LxpDocuments.NeglectedIsNothing | fallbacks/lxp.lua:106-108 | comments, declarations and processing instructions are passed over |
| LxpDocuments.ReadTag | fallbacks/lxp.lua:32-38 | a written tag is read as its name and its attributes in order |
| LxpDocuments.TagMeans | fallbacks/lxp.lua:65-97 | a start tag opens a scope with its declarations, and its event carries the full names that section 6 of Namespaces in XML gives the element and its attributes |
| LxpDocuments.DocumentIsRead | fallbacks/lxp.lua:29-147 | every document that the serializer writes, with nested elements, prefixes, default namespaces, attributes and escaped text, however cut into chunks, makes exactly the calls that it means under its namespaces, and leaves the tokenizer as it was at the start |
| Lxp.Tokenizer.constructor | fallbacks/lxp.lua:131-132 | a new tokenizer waits for its first chunk with the root scope |
| Lxp.Tokenizer.Parse | fallbacks/lxp.lua:130-147 | each chunk resumes where the last one paused and makes exactly the specified calls; an error or the end of input is final |
| Lxp.Tokenizer.Run | fallbacks/lxp.lua:104-129 | the main loop takes every whole token, up to the first error, and pauses where its data ends |
| Lxp.Tokenizer.HandleTag | fallbacks/lxp.lua:106-123 | comments, end tags, empty tags and start tags each make their calls and their change of scopes |
| Lxp.Tokenizer.PopScope | fallbacks/lxp.lua:98-102 | the tag of the innermost scope and the metatable below it, or the text of a `__metatable` binding in its place |
| Lxp.Tokenizer.PushTag | fallbacks/lxp.lua:32-97 | both loops over the attributes: bindings of the new scope, and the other attributes under full names, or an error that leaves the scopes alone |
| Base64.RoundTrip | util-src/encodings.c:33-157 | decoding an encoded byte string gives it back, for all lengths |
| Base64.DecodeGroup | util-src/encodings.c:33-93 | four characters give back the one, two or three bytes they were made of |
| Base64.GroupKeepsBits | util-src/encodings.c:33-48 | the four characters of a whole group stand for the same 24 bits as its three bytes, the highest first |
| Base64.WhitespaceAnywhere | util-src/encodings.c:148-154 | skipped whitespace put in anywhere changes nothing, in any text |
| Base64.DecodesWhen | util-src/encodings.c:95-157 | a text is decoded exactly when it holds only table characters, pads and skipped whitespace up to its first zero byte |
| Base64.DecodesExactly | util-src/encodings.c:95-157 | the same in letters, with the six characters that are skipped |
| Base64.Alphabet | util-src/encodings.c:30-31 | the table is that of RFC 4648, letter by letter, and the pad is `=` |
| Base64.TestVectors | util-src/encodings.c:33-73 | test vectors of section 10 of RFC 4648, and the two last letters of the table |
| Base64.EncodeGroup | util-src/encodings.c:33-48 | the loops over a tuple write its four sextets and the pads |
| Base64.EncodeText | util-src/encodings.c:50-73 | the loop over groups and the two tails encode the whole string |
| Base64.DecodeText | util-src/encodings.c:95-157 | the loop with its four slots decodes what is specified |
| Utf8.DecodeOne | util-src/encodings.c:177-213 | accepts exactly the encodings of sections 3 and 4 of RFC 3629, with their scalar value and end, and reads nothing behind the terminator |
| Utf8.AcceptedIsEncoded | util-src/encodings.c:196-204 | the limits let through only values whose encoding is the bytes read: no overlong form, no surrogate, nothing above 10FFFF |
| Utf8.EncodedIsAccepted | util-src/encodings.c:196-204 | every encoded scalar value is read as itself and let through |
| Utf8.PrefixFree | util-src/encodings.c:177-213 | no encoding is the beginning of another |
| Utf8.OrderIsKept | util-src/encodings.c:177-213 | encodings are ordered byte by byte as the values they encode |
| Utf8.Examples | util-src/encodings.c:177-213 | the examples of section 7 of RFC 3629, of one to four bytes |
| Utf8.Scalars | util-src/encodings.c:199-204 | what is encoded: 0 to 10FFFF without D800 to DFFF |
| Utf8.CheckUtf8 | util-src/encodings.c:219-239 | a string is valid exactly when it is a concatenation of encodings of scalar values, zero bytes included |
| NibbleBits.XorTable | fallbacks/bit.lua:17-17 | all 256 entries are the exclusive or of their two nibbles |
| NibbleBits.OrTable | fallbacks/bit.lua:18-18 | all 256 entries are the or of their two nibbles |
| NibbleBits.AndTable | fallbacks/bit.lua:19-19 | all 256 entries are the and of their two nibbles |
| NibbleBits.ShiftRight1 | fallbacks/bit.lua:61-81 | the loop with its carry halves the number, with a new highest bit when the first carry says so |
| NibbleBits.ShiftLeft1 | fallbacks/bit.lua:87-94 | the loop with its carry doubles the number modulo 2^32 |
| NibbleBits.BXor | fallbacks/bit.lua:56-56 | 32-bit exclusive or for all operands, read in two's complement |
| NibbleBits.BOr | fallbacks/bit.lua:57-57 | 32-bit or for all operands |
| NibbleBits.BAnd | fallbacks/bit.lua:58-58 | 32-bit and for all operands |
| NibbleBits.BNot | fallbacks/bit.lua:60-60 | -1 minus the operand |
| NibbleBits.RightShift | fallbacks/bit.lua:69-73 | unsigned floor division by 2^i for every count |
| NibbleBits.ArithmeticShift | fallbacks/bit.lua:82-86 | signed floor division by 2^i for every count |
| NibbleBits.LeftShift | fallbacks/bit.lua:95-99 | multiplication by 2^i modulo 2^32 for every count |
| NibbleBits.SignedRoundTrip | fallbacks/bit.lua:101-132 | a number comes back from its nibbles exactly when it fits 32 signed bits, and is congruent to it otherwise |

## Left out

Presence and rosters:

- Presence.Server.Deliver: probes, roster pushes and presence broadcasts are not modelled; of these only the answer to a probe by a contact without a subscription touches rosters: it is an `unsubscribed` in the user's name, which clears a pending request.
- Presence.Server.Send: sender and receiver are both local, the sender is connected, and delivery is immediate; storage works, since a failed save makes the server skip its next step.
- RosterManager.Roster.SaveRoster: a call for a connected user always finds a roster; the warning for a missing one is left out.
- RosterManager.Roster.Load: the old form of pending requests, the event for loaded rosters and the cache are left out.
- `add_to_roster`, `remove_from_roster` and the rest of the roster queries: they store items handed in by the caller.
- Caching of rosters of users who are not connected: Presence.Server.Reload says that it makes no difference.

Sessions:

- SessionManager.Registry.Bind: the requested resource is a parameter, as it is after the hooks, which may replace it or veto the bind; no plugin vetoes the unbinding of a session that is kicked; closing a session reaches its destruction at once; JID strings are tuples of their parts; generated identifiers are parameters.
- SessionManager.Registry.Authenticate: the session is not destroyed; roles are left out, and JID preparation is a parameter.
- Creating a connection's session object, updating a session in place from another one, roles and sending to available resources.

Binary codecs:

- Struct.RoundTrip: floats, `c0` and integers of size 0 or above 8 are reported as not modelled, as are numbers whose conversion to 64 bits is undefined in C; integers are exact, without the rounding of a double above 2^53.
- Struct.UnpackLoop: what is read behind the data is not said, only that it is read.
- Struct.GetNum: numbers in a format are unbounded, where the source's int would overflow.
- Stun.Packet.AddMessageIntegrity: the hash is a parameter, and payloads are shorter than 2^64 bytes. Names of methods, classes and attributes, and the conversion of addresses to text, are left out.

DNS:

- DnsName.Resolver.ReadName: errors are raised as results; records, questions, time-outs and name-server selection are left out.
- DnsHeader.HeaderRoundTrip: all fields are given; defaults and the random id are left out.
- Ztact.Store.Set: the nested tables are one value in a field that is assigned, so other references into an inner table are not captured; all paths of one store have one length, as they have in the resolver.

Event loop and buffers:

- Poll.State.Wait: only the poll(2) branches; descriptors and readiness flags are what matters of the kernel's answer. The epoll and select branches are left out.
- RingBuffer.Buffer.Find: sizes are below 2^63 and sums of positions do not wrap around at 2^64, so when the bound is almost 2^64 a text that is nowhere around the array ends the search with 0; the int that Lua gets is not narrowed.
- SendQueue.Connection.SendBuffer: listeners called while sending count as separate operations before or after it; TLS start-up, closing with data still queued, time-outs and reading are left out. The transport's answer is a parameter.

Connecting and tokenizing:

- Connect.EveryRunIsLawful: one race at a time, since races share no connection; a listener without onfail is not told; connection objects are never used again; what the resolver and the network answer are events.
- Lxp.Tokenizer.Parse: handlers return normally; attributes are visited in the order of their first assignment, where Lua leaves the order open; string.char of tonumber is a parameter. The names of the string library are a parameter.
- LxpDocuments.DocumentIsRead: names hold no character that markup uses, no prefix is `__index`, none is declared that is `__metatable` or `__newindex`, no attribute is written twice, texts are not empty and do not follow each other; the serializer's way of inventing prefixes for attribute names that hold a namespace is left out, as is its habit of leaving out a default namespace that its parent has.

Text and arithmetic:

- Utf8.DecodeOne: for a lead byte of all ones the source shifts by more than the word size, which C leaves undefined; the value is rejected whatever it is. Preparation of strings with ICU or libidn is left out.
- NibbleBits.BXor: operands are numbers; text operands, and numbers beyond 64 bits, are left out. The three shifts and bnot likewise.
- Everything that is a foreign call: sockets, TLS, files, clocks, signals, random numbers. Also modules, configuration, administration, logging and statistics.
