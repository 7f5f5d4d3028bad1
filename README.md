# pcap-php `Packet`: a Dafny model

`LibPcap\Packet\Packet` is one record of a pcap capture file. It is built
on a shared byte buffer: its constructor reads the 16-byte record header
(`ts_sec`, `ts_usec`, `incl_len`, `orig_len`, four unsigned 32-bit fields
in the file's byte order) and parses it into the packet's *head*. A record
whose captured length is zero gets `false` as its head and is *malformed*.
`decode()` then does two things:

- It moves the next `incl_len` bytes of the buffer into the head's `"data"`
  entry.
- It walks the *protocol stack descriptor* `$_protocols`, level by level.

Each level is either one protocol name or an array of candidate names.

- A plain-string level is decoded on an empty array.
- The candidates of an array level are decoded one after another. Each
  candidate receives the attributes of the candidate before it, and a
  valid one overwrites the level's result slot.
- When no candidate of a level succeeds and the level's slot is still
  unset (an earlier `decode()` may have filled it), a `NoProtocol` object
  fills the slot.
- The last context of a level becomes the head for the next level.
- An unknown class name raises an exception and stops decoding.

The packet also has these operations:

- It adds protocol names to the stack and removes them from it.
- It merges free-form attributes into a bag.
- It exposes result slots 1, 2 and 3, and 4-or-3, through getters.
- It has two byte helpers: one splits an Ethernet II frame, the other the
  fixed IPv4 header of section 3.1 of RFC 791.

The model has these modules:

- `Bytes`: bytes, big- and little-endian 16/32-bit fields, PHP 8 `substr`.
- `Values`: the option type, PHP arrays with string keys and their
  entries, and the packet's head (an array or `false`).
- `RecordHeaders`: the 16-byte record header and its round trip.
- `Protocols`: the decoder interface. The decoder classes themselves are
  an oracle `Runtime`: a set of existing class names plus a function from
  (class, input array) to (valid, attributes).
- `Stack`: the ordered `$_protocols` array, as a key order plus a map.
- `Orchestrator`: `decode()` as functions. This covers each candidate,
  each level and the whole stack, with the exception paths. It also has a
  reference description of one level as a chain of decoder objects.
- `Frames`: `decodeEthernetFrame` and `decodeIpFrame`.
- `Attributes`: `array_merge` on string keys.
- `PacketModel`: the class `Packet` with its fields and methods, plus the
  loops of `decode()` and `removeProtocol()` as methods proved equal to
  those functions.

Two consequences of the code as written are proved:

- On the default stack, `getEthernet()` returns the Ip level's slot,
  `getIp()` the transport slot and `getTransport()` the application slot.
  `getProtocol()` always falls back to slot 3, because the four levels
  have keys 0 to 3.
- With the default stack, and when the `Ethernet` and `NoProtocol` classes
  resolve, the result of `decode()` does not depend on the captured bytes.
  The first level is the plain string `"Ethernet"`, so it is decoded on an
  empty array rather than on the head. When one of those classes does not
  resolve, the exception leaves the head in the state, so the result does
  depend on it.

## Model

| member | source | states |
|---|---|---|
| Bytes.U32OfBytes | src/LibPcap/Packet/Packet.php:163-167 | reading back the four bytes written for a 32-bit value gives the value, in either byte order |
| Bytes.BytesOfU32 | src/LibPcap/Packet/Packet.php:163-167 | every four bytes are the encoding of the value `unpack` reads from them, so the read loses nothing |
| Bytes.Substr | src/LibPcap/Packet/Packet.php:199 | `substr` with a negative length drops that many bytes from the end; a start beyond the end gives the empty string; the result is always the slice of the input at `start` |
| RecordHeaders.ParseRecordHeader | src/LibPcap/Packet/Packet.php:163-167 | the four fields read from bytes 0-3, 4-7, 8-11 and 12-15 each fit in 32 bits; with the two round-trip lemmas below, parsing is a bijection between 16-byte headers and such records |
| RecordHeaders.ParseEncoded | src/LibPcap/Packet/Packet.php:163-167 | parsing the encoding of a record header gives back its four fields |
| RecordHeaders.EncodeParsed | src/LibPcap/Packet/Packet.php:163-167 | the four parsed fields re-encode to exactly the 16 header bytes |
| RecordHeaders.HeaderFields | src/LibPcap/Packet/Packet.php:163-167 | the head array has exactly the keys ts_sec, ts_usec, incl_len, orig_len, holding the parsed fields |
| Protocols.ResolveClass | src/LibPcap/Packet/Packet.php:205-212 | a class is found iff the name exists under the default namespace or as given; the namespaced class wins; the found class exists |
| Protocols.IsNoProtocol | src/LibPcap/Packet/Packet.php:106-112 | `instanceof NoProtocol` holds exactly for objects whose class is spelled as the name `NoProtocol` under the default namespace (other spellings of the same class: see "Left out") |
| Protocols.Instantiate | src/LibPcap/Packet/Packet.php:207-215 | the object keeps the class it was built as; `setValid` stores `decode()`'s answer and the attributes are the decoder's output on the given array |
| Protocols.DecodeProtocol | src/LibPcap/Packet/Packet.php:203-219 | an unresolvable name raises "class not found" for that name, and only then; otherwise the object has the resolved class and its validity and attributes are what its `decode()` produced on the given input |
| Stack.AddCandidate | src/LibPcap/Packet/Packet.php:60-65 | appending to a level keeps the stack well formed; an existing array level gains the name at its end; a missing key becomes a new one-name level at the end of the iteration order; other levels are unchanged |
| Stack.Without | src/LibPcap/Packet/Packet.php:69-72 | deleting every entry equal to the name leaves no such entry; the survivors are the original multiset with that name's count set to zero; an absent name changes nothing |
| Stack.WithoutSingleton | src/LibPcap/Packet/Packet.php:70-71 | a single entry is deleted exactly when it equals the name |
| Stack.WithoutConcat | src/LibPcap/Packet/Packet.php:69-72 | deleting from a concatenation deletes from each part separately, so the surviving entries keep their relative order |
| Stack.RemoveCandidate | src/LibPcap/Packet/Packet.php:67-75 | only the named array level changes: it becomes `Without` of its entries, so it loses every copy of the name and nothing else and the survivors keep their order; a plain-string or missing level and all other levels are unchanged |
| Stack.RemoveKeepsOrder | src/LibPcap/Packet/Packet.php:67-75 | removing a name that occurs once in an array level leaves exactly the entries before it followed by the entries after it |
| Stack.RemoveIdempotent | src/LibPcap/Packet/Packet.php:67-75 | removing the same name twice is the same as removing it once |
| Orchestrator.RunCandidates | src/LibPcap/Packet/Packet.php:134-141 | an alternation writes no slot but its own, writes only valid objects, and raises iff some candidate name does not resolve, naming such a candidate |
| Orchestrator.LevelInput | src/LibPcap/Packet/Packet.php:131-146 | a plain-string level is decoded on an empty array, an array level on the current head |
| Orchestrator.DecodeLevel | src/LibPcap/Packet/Packet.php:131-156 | one level sets its own slot and no other; on an exception the head is left as it was and the error names an unresolvable candidate or `NoProtocol`; a candidate that does not resolve always makes the level raise; when every candidate resolves, the level raises exactly when the candidates left the slot unset and `NoProtocol` does not resolve |
| Orchestrator.DecodeLevels | src/LibPcap/Packet/Packet.php:128-157 | the walk over the stack only adds slots for the stack's keys and keeps slots of other keys; without an exception every key has a slot; any exception is "class not found" for a name that does not resolve, and that name is `NoProtocol` or a candidate of one of the walked levels |
| Orchestrator.UnresolvableLevelAborts | src/LibPcap/Packet/Packet.php:128-157 | a level of the stack with a candidate that does not resolve makes the whole decode raise, since the loop catches nothing |
| Orchestrator.ResolvableStackDecodes | src/LibPcap/Packet/Packet.php:128-157 | when every name of every level, and `NoProtocol`, resolves, decoding raises nothing |
| Orchestrator.ChainThreads | src/LibPcap/Packet/Packet.php:134-139 | the i-th candidate of an alternation is built on the attributes of the (i-1)-th, valid or not, and the first on the level's input |
| Orchestrator.LastValidIndex | src/LibPcap/Packet/Packet.php:134-141 | the index it returns is a valid decoder with no valid decoder after it, or -1 when none is valid |
| Orchestrator.CandidatesSelectLastValid | src/LibPcap/Packet/Packet.php:134-141 | with no `break`, the slot ends holding the last valid candidate, or is unchanged when none is valid, and the context ends as the last candidate's attributes |
| Orchestrator.Fallback | src/LibPcap/Packet/Packet.php:153-155 | the fallback is the class `NoProtocol` resolves to, decoded on an empty array: its validity and attributes are that decoder's answer; under the default namespace, with that class present, it is a `NoProtocol` for `getProtocol` |
| Orchestrator.LevelOutcome | src/LibPcap/Packet/Packet.php:131-156 | a level's slot ends as the last valid candidate, else the slot an earlier decode left, else a `NoProtocol` object built on an empty array; the new head is the last candidate's attributes |
| Orchestrator.HeadArray | src/LibPcap/Packet/Packet.php:124-126 | the head as an array: the parsed fields, or the empty array that PHP makes of `false` on write |
| Orchestrator.InclLen | src/LibPcap/Packet/Packet.php:125 | the numeric `incl_len` entry when there is one, otherwise 0 |
| Orchestrator.HeaderInclLen | src/LibPcap/Packet/Packet.php:124-125 | the length `decode` reads from a parsed head is the record header's captured length |
| Orchestrator.ReadPayload | src/LibPcap/Packet/Packet.php:124-126 | the head gains a "data" entry holding exactly the next `incl_len` bytes, and the buffer keeps the rest (data followed by rest is the old buffer); a buffer holding fewer bytes, or a negative length, raises an underflow |
| Orchestrator.SlotAt | src/LibPcap/Packet/Packet.php:94-105 | a slot read gives the stored object exactly when the slot is set |
| Orchestrator.ProtocolOf | src/LibPcap/Packet/Packet.php:106-112 | slot 4 when it is set and not a `NoProtocol`, else slot 3 |
| Orchestrator.FourLevelSlots | src/LibPcap/Packet/Packet.php:34-39 | after a decode that raises nothing on a stack keyed 0 to 3, exactly slots 0 to 3 are set, slot 4 is empty and `getProtocol` returns slot 3 |
| Orchestrator.FreshDecodeFillsKeys | src/LibPcap/Packet/Packet.php:128-157 | on empty slots, a decode that raises nothing sets exactly the slots of the stack's keys |
| Orchestrator.SingleLevelIgnoresHead | src/LibPcap/Packet/Packet.php:143-151 | a plain-string level's outcome does not depend on the head it is given |
| Orchestrator.DefaultDecodeIgnoresHead | src/LibPcap/Packet/Packet.php:34-39 | with the default stack and resolvable Ethernet and `NoProtocol` classes, the whole decode (slots and final head) is the same for every head |
| Frames.DecodeEthernetFrame | src/LibPcap/Packet/Packet.php:220-227 | the frame has 6-byte MACs and a 16-bit EtherType, and its parts laid end to end are the input bytes |
| Frames.DecodeEncodedEthernet | src/LibPcap/Packet/Packet.php:220-227 | splitting the bytes of a well-formed frame gives the frame back |
| Frames.DecodeIpFields | src/LibPcap/Packet/Packet.php:189-202 | version and IHL are the two nibbles of byte 0; flags and offset are the top 3 and low 13 bits of bytes 6-7; the payload is PHP 8 `substr(data, IHL*4, length - IHL*4)`: bytes IHL*4 up to the total length when both fit, everything from IHL*4 for a capture shorter than the total length, and the slice that drops `IHL*4 - length` bytes from the end (or nothing) when the total length is below IHL*4 |
| Frames.IpFieldsRebuildHeader | src/LibPcap/Packet/Packet.php:189-202 | the extracted fields re-encode to exactly the first 20 bytes, so the split loses nothing |
| Attributes.Merge | src/LibPcap/Packet/Packet.php:85-89 | the merged bag has the keys of both; the new data wins on shared keys; other old entries are kept |
| Attributes.MergeIdempotent | src/LibPcap/Packet/Packet.php:85-89 | filling the bag twice with the same data leaves it as one fill did |
| Attributes.MergeAssociative | src/LibPcap/Packet/Packet.php:85-89 | two fills in a row leave the bag one fill with the merged data would |
| PacketModel.DeleteAll | src/LibPcap/Packet/Packet.php:69-72 | the loop over a level's entries keeps exactly the level's entries with every copy of the name deleted (`Without`) |
| PacketModel.DecodeStack | src/LibPcap/Packet/Packet.php:128-157 | the loop over the levels produces exactly the state `DecodeLevels` describes, stopping at the first exception |
| PacketModel.DecodeOneLevel | src/LibPcap/Packet/Packet.php:131-156 | one pass of the outer loop produces exactly the state `DecodeLevel` describes |
| PacketModel.Packet.constructor | src/LibPcap/Packet/Packet.php:42-51 | the first 16 bytes become the header data and the buffer keeps the rest; the packet is malformed iff `incl_len` is 0, with head `false` then and the four-field array otherwise; the stack is the default one |
| PacketModel.Packet.DecodeHeadFromPacket | src/LibPcap/Packet/Packet.php:160-177 | the flag ends set iff `incl_len` is 0, so the oversize test has no lasting effect; the head is `false` for an empty record and the parsed array otherwise |
| PacketModel.Packet.AddProtocol | src/LibPcap/Packet/Packet.php:60-65 | when a class of that name exists in the default namespace nothing changes, otherwise the stack becomes `AddCandidate` of the old one; the stack stays well formed |
| PacketModel.Packet.RemoveProtocol | src/LibPcap/Packet/Packet.php:67-75 | the stack becomes `RemoveCandidate` of the old one and stays well formed |
| PacketModel.Packet.IsCorrect | src/LibPcap/Packet/Packet.php:76-79 | true iff the packet is not malformed |
| PacketModel.Packet.Fill | src/LibPcap/Packet/Packet.php:80-84 | the bag becomes the old bag merged with the data |
| PacketModel.Packet.FillDirty | src/LibPcap/Packet/Packet.php:85-89 | the bag becomes the old bag merged with the data |
| PacketModel.Packet.GetHead | src/LibPcap/Packet/Packet.php:90-93 | the stored head |
| PacketModel.Packet.SetHead | src/LibPcap/Packet/Packet.php:183-187 | the head becomes the argument |
| PacketModel.Packet.GetEthernet | src/LibPcap/Packet/Packet.php:94-97 | slot 1 (the Ip level on the default stack, see `FourLevelSlots`) when set |
| PacketModel.Packet.GetIp | src/LibPcap/Packet/Packet.php:98-101 | slot 2 when set |
| PacketModel.Packet.GetTransport | src/LibPcap/Packet/Packet.php:102-105 | slot 3 when set |
| PacketModel.Packet.GetProtocol | src/LibPcap/Packet/Packet.php:106-112 | slot 4 unless it is unset or a `NoProtocol`, else slot 3 |
| PacketModel.Packet.GetEncoding | src/LibPcap/Packet/Packet.php:113-116 | the encoding the packet was built with |
| PacketModel.Packet.Decode | src/LibPcap/Packet/Packet.php:117-159 | a malformed packet is left unchanged; a short buffer raises an underflow and changes nothing; otherwise the buffer loses the payload, and the head and slots are exactly what `DecodeLevels` gives from the head with its "data" entry, including the partial state at an exception |
| PacketModel.Packet.DecodeIpFrame | src/LibPcap/Packet/Packet.php:189-202 | returns the fields `DecodeIpFields` extracts and clears the malformed flag |

## Left out

- The `Buffer` class is not part of this model. Its `get(n)` is modelled as taking the first `n` bytes of what remains. A request for more than remains, or for a negative count, is an underflow error and consumes nothing.
- The `Encoding` class and `unpack` format strings are not part of this model. The file's byte order is an `Endian` parameter.
- The protocol decoder classes (Ethernet, Ip, Tcp, Udp, Dhcp, Http, NoProtocol) are not part of this model. They are the `Runtime` oracle, and `class_exists` is membership in its set of class names. A subclass of `NoProtocol` is not recognised by `instanceof`.
- Exceptions are returned as an `Error` value instead of being thrown. The message text is not modelled.
- `__get`: PHP's dynamic property lookup has no counterpart in Dafny.
- `encode()`: it has an empty body in the source.
- The `$index` property: it is never used.
- The fluent `return $this` of the mutators.
- PacketModel.Packet.constructor: a buffer shorter than 16 bytes is excluded by a precondition, because the buffer class that would raise is not part of this model.
- PacketModel.Packet.DecodeHeadFromPacket: the snap length is taken as an argument. The source reads it from a `header` property that the class never assigns. The flag it sets is overwritten on every path that follows, so the value never matters.
- PacketModel.Packet.AddProtocol: appending to a level that is a plain string is a fatal error in PHP. Callers are required not to do it. Level keys are integers only.
- PacketModel.Packet.RemoveProtocol: iterating over a plain-string or missing level only warns in PHP. It is modelled as leaving the stack unchanged.
- Frames.DecodeEthernetFrame: inputs shorter than 14 bytes are excluded by a precondition. On those, `unpack` would fail. The MAC addresses are kept as raw bytes; their `bin2hex` rendering is not modelled.
- Frames.DecodeIpFields: inputs shorter than 20 bytes are excluded by a precondition. The `source_ip`/`destination_ip` strings from `long2ip` are not modelled. The numeric addresses they are computed from are kept.
- Bytes.Substr: the PHP 8 semantics are modelled. PHP 7 returns `false` where PHP 8 returns the empty string.
- Attributes.Merge: `array_merge` renumbers integer keys. Contexts here have string keys only, so that renumbering is not modelled.
- PHP's loose `==` in `removeProtocol` is modelled as string equality.
- Protocols.IsNoProtocol: a class is identified by the name it was built from. PHP resolves names without a leading backslash and ignoring case to the same class, so a `NoProtocol` object built from such a spelling (say, added with `addProtocol("LibPcap\Packet\Protocols\NoProtocol", 4)`) passes `instanceof` in the source but not here.
- Frames.IpHeader: the array `decodeIpFrame` returns still holds the raw `flags_offset` entry (only `version_ihl` is unset). The record has no such field; that value is `flags * 8192 + offset`.
- Bytes.U32: the 32-bit fields are read as unsigned values below 2^32, which is what `unpack` gives on 64-bit PHP. On 32-bit PHP, values of 2^31 and above come out negative.
- Orchestrator.InclLen: a missing or non-numeric `incl_len` entry (a head replaced by `setHead` or by a previous `decode()`, or the `false` head of an empty record after `decodeIpFrame` cleared the flag) is read as a request for 0 bytes. In PHP it is `null`, which `Buffer::get` receives as is; the buffer class is not part of this model.
- Protocols.Runtime: the oracle does not receive the encoding that `decodeProtocol` passes to each decoder's constructor. One oracle therefore stands for the decoders under one fixed encoding.
- The `Buffer` object is shared with the caller, who reads the following records from it. The model copies the remaining bytes into the packet, so the advance of the shared read position across packets is not captured.
- The constructor's `null` defaults for `$buffer` and `$encoding` are not modelled. A missing buffer makes the source fail on its first `get`, and the model always receives both.
