# local-dns, verified

local-dns is a small name server for a home network. It scans the local network, keeps a registry
of the devices it has seen and of host names mapped to them, answers DNS queries for its own zone
from that registry, and relays everything else to upstream resolvers.

This project is a Dafny model of the parts of local-dns in which mistakes are silent, with proofs
about them:

* the **wire codec** (`internal/dnsmsg`): names with compression pointers, headers, questions,
  records, building and parsing messages;
* the **registry** (`internal/store`): devices and mappings as objects updated in place, the dirty
  flag, the state file and its atomic replacement;
* the **server** (`internal/dnsserver`): what one raw message is answered with;
* the **scanner**'s arithmetic (`internal/scanner`): enumerating a subnet, choosing which devices to
  probe for their host name, reading the host name out of an mDNS reply;
* the **name rules** (`internal/names`) on which the others rely.

`dafny verify dfyconfig.toml` checks everything.

## How it is organised

Loops of the original are methods with loops, objects that change are classes, and each method is
proved equal to a specification function; the theorems are about those functions. What the functions
themselves compute is pinned down by theorems in octets and numbers, by inputs and results.

| module | contents |
|---|---|
| `Results`, `Bytes`, `Text`, `Ordering` | results and options, octets and big-endian fields, splitting and joining at dots, sorting |
| `NameCodec`, `NameTheorems`, `NameTexts` | encoding and decoding of names; what the decoders accept; round trips; decoded texts octet by octet |
| `Message`, `MessageTheorems`, `ReplyRoundTrip` | messages; how a parsed message tiles its octets; parsing what was built |
| `ReverseNames`, `MdnsProbe` | `in-addr.arpa` names; host names in mDNS replies |
| `HostNames`, `Addresses` | host names, MAC addresses, IP addresses |
| `Registry`, `Resolution`, `Views` | the registry as a value, reverse resolution, the lists shown to a user |
| `Persistence`, `Runs`, `Tracking` | the state file, whole runs with failures, crashes and restarts, the history behind an address |
| `Effects` | what each operation does, by memory and file before and after it |
| `JsonText` | what JSON does to the texts of the state file |
| `Store` | the classes `Device`, `Mapping`, `Disk` and `Store`; every method refines `Runs.Do` |
| `Server`, `ServerTheorems`, `EndToEnd` | answering raw messages; from the history of the store to the octets of an answer |
| `Subnet`, `ProbeSchedule` | the scanner |

Text is a sequence of octets. Flag words are 16-bit vectors; counts and lengths that the program
truncates to 16 bits are truncated here. Every lemma to which Dafny would apply induction on its own
carries `{:induction false}`, so inductive proofs are written out.

## Main results

* **Decoding is exact.** The compressed decoder accepts exactly the chains of at most 16 pointers
  whose segments are in bounds and have at most 255 octets of labels, terminates on every input,
  reads the same after octets are appended, and never returns more than 4334 characters.
* **Building and parsing undo each other**, through a compression pointer into the echoed question.
* **Clean means saved, and acknowledged means durable**, over every run with failing saves, crashes
  at any moment of a save, and restarts.
* **Names follow devices**: what a name resolves to is a function of the operations that were not lost; and
  `EndToEnd.AnswersFollowDevices` carries this to the octets a client receives.
* **The zone is answered here, and nothing else is**: exactly which queries are answered locally, with what, and
  within 322 + 3 * len(domain) octets; all others are relayed.
* **Reverse answers lead back** to the address that was asked about.
* **Every operation does what it says**, to memory and to the file, and a deleted name stays unknown.
* **The store never shares objects** and refines the value-level operations step by step.

Three things the proofs show the code not to do, each with the exact condition under which it does:

* The decoders count the octets of labels and their lengths but not the final zero, so they accept
  names of 256 octets on the wire, while `EncodeName` stops at 255 (`NameTheorems.LongestNameRefused`).
* A label may hold a dot octet on the wire; encoding the decoded text then writes other labels
  (`NameTheorems.DottedLabelSplits`). `NameTheorems.EncodeDecode` says exactly which decoded names can be encoded again.
* JSON replaces octets that are not UTF-8, and host names found by a probe are not checked for it, so
  a saved device can come back under another name (`Runs.ForeignNameAccepted`, `Runs.ForeignNameChanges`).
  `Runs.CleanMeansSaved` says exactly which registries come back unchanged; names, MAC addresses and
  IP addresses always do.

## Model

| member | source | states |
|---|---|---|
| `NameCodec.EncodeName` | internal/dnsmsg/dnsmsg.go:241-261 | the loop over labels computes the wire form of the name, or fails |
| `NameCodec.EncodeNameAccepts` | internal/dnsmsg/dnsmsg.go:241-261 | a name is encoded iff it is the root or, one trailing dot dropped, all labels have 1 to 63 octets and the text at most 253 |
| `NameTexts.TrailingDot` | internal/dnsmsg/dnsmsg.go:241-261 | a trailing dot makes no difference to the encoder |
| `NameCodec.DecodeNameUncompressed` | internal/dnsmsg/dnsmsg.go:136-169 | the loop over octets computes `ReadPlainName`, same text, same end, same error |
| `NameCodec.DecodeName` | internal/dnsmsg/dnsmsg.go:178-237 | the loop with its recursion at pointers computes `ReadName`, for every input, offset and depth |
| `NameTheorems.PlainNameExact` | internal/dnsmsg/dnsmsg.go:136-169 | the uncompressed decoder accepts exactly one in-bounds segment ending in a zero octet |
| `NameTheorems.PlainNameSize` | internal/dnsmsg/dnsmsg.go:136-169 | an accepted plain name takes at most 256 octets, two more than its text unless it is the root |
| `NameTheorems.SegmentLocal` | internal/dnsmsg/dnsmsg.go:136-169 | a segment is read from its own octets only |
| `NameTheorems.DecodeNameExact` | internal/dnsmsg/dnsmsg.go:178-237 | decoding succeeds with a result iff a chain of at most 17 segments, linked by the lower 14 bits of pointers as in section 4.1.4 of RFC 1035, gives that result |
| `NameTheorems.ReadNameStable` | internal/dnsmsg/dnsmsg.go:178-237 | a decoded name is the same after octets are appended and from any smaller depth |
| `NameTheorems.PlainNameAgrees` | internal/dnsmsg/dnsmsg.go:136-237 | where the uncompressed decoder succeeds, the compressed one returns the same |
| `NameTheorems.DecodedLengthBound` | internal/dnsmsg/dnsmsg.go:178-237 | no accepted name has more than 4334 characters |
| `NameTexts.PlainTextSpelled` | internal/dnsmsg/dnsmsg.go:136-169 | every octet of the text is the wire octet, plus 0x20 for A to Z, or a dot where the length of a later label stands |
| `NameTexts.NoCapitals` | internal/dnsmsg/dnsmsg.go:136-237 | no octet either decoder returns lies in 0x41 to 0x5A |
| `NameTexts.PointedText` | internal/dnsmsg/dnsmsg.go:178-237 | a segment ending in a pointer reads as its own text, a dot, and the text of the name at 256 times the lower six bits plus the next octet |
| `NameTexts.PointerIsFollowed` | internal/dnsmsg/dnsmsg.go:178-237 | for every offset below 0x4000 the two octets pointing to it read as the name that stands there |
| `NameTexts.NamePtrIsFollowed` | internal/dnsmsg/dnsmsg.go:265-267 | what `NamePtr` writes for an offset below 0x4000 is read as the name that stands there |
| `NameTexts.CaseIsIgnored` | internal/dnsmsg/dnsmsg.go:118-169 | two requests whose question names differ at most in the case of letters ask the same question |
| `NameTheorems.DecodeEncode` | internal/dnsmsg/dnsmsg.go:241-261 | an encoded name, at any offset of any message, decodes to its lower-case text and exact end, by both decoders |
| `NameTheorems.EncodeDecode` | internal/dnsmsg/dnsmsg.go:178-261 | re-encoding a name that `decodeName` accepts, through any pointers, gives its lower-case wire form iff no label holds a dot and the labels of all segments take at most 254 octets |
| `NameTheorems.EncodeDecodePlain` | internal/dnsmsg/dnsmsg.go:136-261 | the same iff for uncompressed names |
| `NameTheorems.LongestNameRefused` | internal/dnsmsg/dnsmsg.go:136-261 | a name of 256 octets on the wire, labels of 63, 63, 63 and 62, is accepted by the decoder and refused by the encoder |
| `NameTheorems.DottedLabelSplits` | internal/dnsmsg/dnsmsg.go:136-261 | one label reading "a.b" is accepted, and encoding its text writes two labels |
| `Message.ParseQuestion` | internal/dnsmsg/dnsmsg.go:118-132 | computes `FirstQuestion`: the uncompressed name at offset 12, then type and class |
| `Message.BuildReply` | internal/dnsmsg/dnsmsg.go:295-320 | the appended buffer is header, echoed question, answers, authority, or an error when the question is out of bounds |
| `Message.ParseMessage` | internal/dnsmsg/dnsmsg.go:388-440 | the loops over questions and sections compute `OutcomeOf`: the same parts, with an error the header, questions and records returned beside it |
| `Message.OutcomeWhole` | internal/dnsmsg/dnsmsg.go:388-440 | parsing returns no error iff the message parses as a whole, with the same parts, and otherwise the same error |
| `MessageTheorems.ParsedMessageTiles` | internal/dnsmsg/dnsmsg.go:388-440 | a parsed message has the header's counts, its sections in order, questions and records following one another without a gap, and RDATA ranges in bounds, disjoint and increasing; 12 + 5 QD + 11 (AN + NS + AR) octets at least |
| `MessageTheorems.ParsingStopsAtFirstError` | internal/dnsmsg/dnsmsg.go:388-440 | once the questions are read, the records returned are contiguous even with an error, which is that of the record that would come next |
| `MessageTheorems.ParseHeaderBytes` | internal/dnsmsg/dnsmsg.go:68-100 | parsing undoes writing a header, whatever follows |
| `MessageTheorems.HeaderLayout` | internal/dnsmsg/dnsmsg.go:68-80 | each field of a header, by the octets it stands in |
| `MessageTheorems.HeaderBits` | internal/dnsmsg/dnsmsg.go:82-89 | QR, opcode and rcode by the bits of the flag word |
| `MessageTheorems.QuestionLayout` | internal/dnsmsg/dnsmsg.go:118-132 | the type and the class of the question, by the four octets after its name, and when it cannot be read |
| `MessageTheorems.RecordLayout` | internal/dnsmsg/dnsmsg.go:406-436 | each field of a record, by the ten octets before its RDATA, and when it cannot be read |
| `MessageTheorems.ReplyFlagBits` | internal/dnsmsg/dnsmsg.go:295-330 | the flag word of a reply: 0x8000, the bits 0x7900 of the request, the extra flags and the low four bits of the rcode |
| `ReplyRoundTrip.OwnerReads` | internal/dnsmsg/dnsmsg.go:265-289 | owners written as a pointer to offset 12 read as the question name, encoded ones as their own |
| `ReplyRoundTrip.ReplyParses` | internal/dnsmsg/dnsmsg.go:295-440 | a reply built for any parsed question parses to its header, the same question and exactly its records, in order, with section, owner, type, class, TTL and RDATA |
| `ReplyRoundTrip.QueryParses` | internal/dnsmsg/dnsmsg.go:333-348 | a built query parses to its ID, RD bit and question, for every encodable name |
| `ReplyRoundTrip.SoaDataReads` | internal/dnsmsg/dnsmsg.go:351-370 | SOA data reads back as its two names and five numbers in the order of section 3.3.13 of RFC 1035 |
| `ReplyRoundTrip.HeaderOnlyParses` | internal/dnsmsg/dnsmsg.go:324-330 | a bare header parses to exactly the ID and bits 0x7900 of the request, QR, RA and the low four bits of any rcode, with nothing else |
| `ReverseNames.ParseReverseName` | internal/dnsmsg/dnsmsg.go:452-480 | the loop over the four labels computes `AddressOf` |
| `ReverseNames.ParseReverse` | internal/dnsmsg/dnsmsg.go:443-480 | parsing the reverse name of an address gives the address back |
| `ReverseNames.AddressExact` | internal/dnsmsg/dnsmsg.go:452-480 | a name is accepted iff it is four numerals of one to three digits, up to 255, and ".in-addr.arpa", and its address is those numerals in reverse |
| `ReverseNames.ReverseNameExact` | internal/dnsmsg/dnsmsg.go:443-448 | a reverse name is the four octets, the last one first, as shortest numerals, and ".in-addr.arpa" |
| `ReverseNames.ReverseParse` | internal/dnsmsg/dnsmsg.go:443-480 | the reverse name of a parsed address is the parsed name without leading zeros |
| `ReverseNames.ReverseNameEncodes` | internal/dnsmsg/dnsmsg.go:443-448 | reverse names can be encoded and are already in lower case |
| `MdnsProbe.ExtractMdnsPtr` | internal/scanner/probe.go:59-83 | the scan over records with its early exit computes `MdnsHost` |
| `MdnsProbe.FirstHostIs` | internal/scanner/probe.go:64-82 | the host comes from the first record that names one |
| `MdnsProbe.PtrHostExact` | internal/scanner/probe.go:64-82 | a record names a host iff it is PTR, of class IN with or without the top bit, for the name asked about, and its RDATA reads as the host, perhaps with ".local" |
| `MdnsProbe.MdnsHostExact` | internal/scanner/probe.go:59-83 | a message names a host iff it parses, is a response, and its first record that names any names that one |
| `MdnsProbe.ProbeRoundTrip` | internal/scanner/probe.go:26-83 | a reply to the probe with one PTR record to "host.local", with or without the cache-flush bit, yields the host in lower case |
| `HostNames.ValidateLabels` | internal/names/names.go:15-41 | accepts exactly the names of 1 to 200 octets whose labels have 1 to 63 letters, digits and inner hyphens |
| `HostNames.ValidNameExact` | internal/names/names.go:15-41 | a name is valid iff it has at most 200 octets and is dotted labels of 1 to 63 of a to z, 0 to 9 and inner hyphens |
| `HostNames.NormalizeIs` | internal/names/names.go:45-47 | `Normalize` takes off exactly the blanks around a text, then the dots, and makes A to Z small |
| `HostNames.NormalizeValid` | internal/names/names.go:15-47 | valid names are fixed points of `Normalize` |
| `HostNames.NameUnderZone` | internal/names/names.go:15-41 | a valid name under a valid zone is encodable iff it fits 253 octets, and lowering it changes nothing |
| `HostNames.MacNotations` | internal/names/names.go:51-57 | six octets with colons, hyphens or as dotted quads, with digits of either case and blanks around them, normalise to the one lower-case text with colons |
| `HostNames.OnlyMacNotations` | internal/names/names.go:51-57 | nothing else is accepted as a MAC address |
| `HostNames.NormalizeMacValid` | internal/names/names.go:51-57 | a normalised MAC address is normalised to itself |
| `Registry.ObserveAllKeeps` | internal/store/store.go:203-233 | a scan keeps every record under its own normalised key, and every mapping |
| `Registry.ScanDevices` | internal/store/store.go:203-233 | which devices a scan adds, and what it keeps and changes of each one, whatever the order of the observations |
| `Registry.NormalizedInput` | internal/store/store.go:310-336 | accepted input is a valid name with exactly one usable target, and the stored address parses to the typed one |
| `Registry.MappingChangesKeep` | internal/store/store.go:340-395 | setting and updating mappings keep keys normalised and every mapping with exactly one target |
| `Registry.WithMappingFrame` | internal/store/store.go:340-362 | setting a mapping keeps its creation time if it existed, every other mapping and the devices |
| `Registry.MovedFrame` | internal/store/store.go:366-395 | updating a mapping keeps its creation time, drops the old name if it differs, and leaves every other name and what it resolves to |
| `Registry.MovedCount` | internal/store/store.go:366-395 | updating a mapping keeps the number of mappings |
| `Registry.WithoutMappingFrame` | internal/store/store.go:399-409 | deleting a mapping removes that name and nothing else |
| `Registry.WithoutDeviceFrame` | internal/store/store.go:292-305 | deleting a device leaves the names mapped to it, without an address, and every other name as it was |
| `Resolution.ResolvePtrIsLeast` | internal/store/store.go:514-528 | reverse resolution succeeds iff some mapping has the address now, and gives the least such name, for any order of the map |
| `Views.DeviceListUnique` | internal/store/store.go:428-458 | the list of devices does not depend on the order in which the maps are walked |
| `Views.DeviceListLength` | internal/store/store.go:428-458 | the list has exactly one view for each device |
| `Views.ListedNamesResolve` | internal/store/store.go:428-538 | a name is listed with a device iff it is mapped to it, and then resolves to the device's address |
| `Views.IpKeyOrder` | internal/store/store.go:545-554 | IPv4 addresses sort numerically, before IPv6, before everything else |
| `Views.CountsAgree` | internal/store/store.go:428-471 | the online count equals the number of listed devices that are online |
| `Views.OnlineTells` | internal/store/store.go:461-471 | the devices counted as online are those ever seen and last seen within the window |
| `Views.ViewTells` | internal/store/store.go:428-458 | what a view of a device shows: the device, whether it was seen within the window, and its names in order |
| `Views.RowAgrees` | internal/store/store.go:475-538 | the address shown in a row of mappings is the one its name resolves to |
| `Views.RowTells` | internal/store/store.go:475-497 | what a row shows for a static address, a known device and an unknown one, label before host name |
| `Persistence.LoadKeyed` | internal/store/store.go:94-135 | whatever document is opened, every loaded record stands under its own normalised key |
| `Persistence.LastDeviceWins` | internal/store/store.go:112-119 | the last record of a MAC is the one that is loaded |
| `Persistence.OtherDevicesMissing` | internal/store/store.go:112-119 | a MAC that no readable record is of is not loaded |
| `Persistence.LastMappingWins` | internal/store/store.go:120-133 | the last usable record of a name is the one that is loaded, normalised |
| `Persistence.OtherMappingsMissing` | internal/store/store.go:120-133 | a name without a record with a valid name and no or a readable MAC is not loaded |
| `Persistence.LoadSnapshot` | internal/store/store.go:94-197 | loading what was saved of a registry gives exactly that registry: names and MAC addresses in it are fixed points of the normalising load |
| `JsonText.RewrittenIff` | internal/store/store.go:154-171 | a text survives being written as JSON and read back iff it is UTF-8 |
| `JsonText.Utf8Exact` | internal/store/store.go:154-171 | a text is UTF-8 iff it is the encoding of scalar values by the table of section 3 of RFC 3629 |
| `JsonText.ReopenedIff` | internal/store/store.go:94-197 | reopening the JSON of a saved registry gives back the same registry iff all its texts are UTF-8; otherwise the same with its texts rewritten |
| `JsonText.OpenedStays` | internal/store/store.go:94-135 | whatever document was opened, saving and opening again changes no text any more |
| `JsonText.ParseRewritten` | internal/store/store.go:530-538 | rewriting a text as JSON does never changes which address it is |
| `Persistence.SaveIsAtomic` | internal/store/store.go:154-197 | at every moment of a save the state file is the old one or the complete new one, and it is the new one at the end iff no step failed |
| `Persistence.SaveLeaves` | internal/store/store.go:172-197 | the temporary file is gone after a save, or after a failure if it could be removed, and no other file is touched |
| `Runs.ApplyKeeps` | internal/store/store.go:203-409 | every operation keeps every record under its own normalised key, and every mapping with exactly one usable target |
| `Runs.CleanMeansSaved` | internal/store/store.go:94-409 | in every run with any failures, crashes and restarts, from any file that is not torn, it never becomes torn, a start succeeds, every record is under its own key, and a restart of a clean store loads exactly the same but for octets that are not UTF-8: the same memory iff all its texts are UTF-8 |
| `Runs.ForeignNameAccepted` | internal/store/store.go:236-250 | a probed host name of the single octet 0xFF is taken over as it is |
| `Runs.ForeignNameChanges` | internal/store/store.go:94-197 | a device so named is saved without error, the store is clean, and the next start names it U+FFFD |
| `Runs.MappingsStayAimed` | internal/store/store.go:94-409 | in every run from no file every mapping, in memory and in the file, always has exactly one usable target |
| `Effects.SetMappingEffect` | internal/store/store.go:310-362 | memory and file after `SetMapping`: the valid fields normalised under the normalised name, nothing else changed; invalid ones change nothing |
| `Effects.UpdateMappingEffect` | internal/store/store.go:310-395 | memory and file after `UpdateMapping`: the new fields and name, the old name gone, nothing else changed; and exactly when nothing changes |
| `Effects.AcknowledgedExactly` | internal/store/store.go:310-395 | which calls of `SetMapping` and `UpdateMapping` return no error |
| `Effects.StoredMac` | internal/store/store.go:318-324 | the MAC that is stored is the canonical text of the octets given, in whichever notation |
| `Effects.MappingRefusals` | internal/store/store.go:310-384 | why `SetMapping` and `UpdateMapping` refuse a call: the first thing that is wrong |
| `Effects.DeleteMappingEffect` | internal/store/store.go:399-409 | after `DeleteMapping` the name is mapped no more, in memory whatever becomes of the save and in the file if no step failed; all else is as before |
| `Effects.HostnameEffect` | internal/store/store.go:236-250 | memory after `SetDiscoveredHostname`, and when it makes the store dirty |
| `Effects.VendorEffect` | internal/store/store.go:253-266 | memory after `SetVendor`, and when it makes the store dirty |
| `Effects.LabelEffect` | internal/store/store.go:269-287 | memory and file after `SetLabel`, and exactly when nothing changes |
| `Effects.DeleteDeviceEffect` | internal/store/store.go:292-305 | memory and file after `DeleteDevice`, and exactly when nothing changes |
| `Effects.DeviceRefusals` | internal/store/store.go:269-305 | why `SetLabel` and `DeleteDevice` refuse a call |
| `Effects.SaveEffect` | internal/store/store.go:138-142 | `Save` writes memory to the file in any case |
| `Effects.SaveIfDirtyEffect` | internal/store/store.go:145-152 | `SaveIfDirty` writes a dirty store and leaves a clean one alone |
| `Effects.ScanEffect` | internal/store/store.go:203-233 | every field of every device after a scan, by the observations; mappings and file are as before |
| `Effects.ScanDirties` | internal/store/store.go:203-233 | a scan makes the store dirty iff some observation has a readable MAC |
| `Effects.MaterialIs` | internal/store/store.go:203-233 | a scan is worth an immediate save iff some observation, at its turn, is of a new device, changes an address or first reports the machine itself |
| `Effects.DeletedStaysAway` | internal/store/store.go:94-409 | a mapping whose deletion was acknowledged stays away, in file and memory, through crashes and restarts, until an operation maps its name again |
| `Runs.OtherNamesLeave` | internal/store/store.go:340-409 | operations about other names leave a mapping alone |
| `Runs.UntouchedLeaves` | internal/store/store.go:94-409 | a durable mapping is left alone by any events none of which is about its name |
| `Runs.AcknowledgedIsDurable` | internal/store/store.go:340-395 | a `SetMapping` or `UpdateMapping` that returned no error is in memory and, as JSON rewrites it, in the file, with the validated target |
| `Runs.AcknowledgedMappingsSurvive` | internal/store/store.go:94-409 | such a mapping is there after every later event, crashes and restarts included, as long as no operation is about its name, and more generally until one changes it |
| `Tracking.NamesFollowDevices` | internal/store/store.go:94-538 | in any run from no state file, crashes and restarts included, a name mapped to a MAC resolves to the last address reported for it since it was last deleted, in the operations that were not lost |
| `Tracking.HistoryReplays` | internal/store/store.go:94-409 | in any run memory is the replay of the operations up to the last save before the last crash and of those since, and the file the replay of those up to the last save |
| `Tracking.NothingLost` | internal/store/store.go:203-409 | as long as the process stays up every operation is in that history, whatever becomes of the saves |
| `Store.Device.See` | internal/store/store.go:214-228 | one observation updates the device in place, and whether anything but the time of sighting changed |
| `Store.Disk.Replace` | internal/store/store.go:154-197 | the file steps of a save take the directory through exactly the states of the trace |
| `Store.Store.NoSharing` | internal/store/store.go:71-87 | every key is its object's own MAC or name, so no object is under two keys |
| `Store.Store.Open` | internal/store/store.go:94-135 | opening does what a start of the run model does: a torn or unreadable file is refused, a missing one gives an empty store, any other its normalised records, the last one winning |
| `Store.Store.Collect` | internal/store/store.go:154-170 | the document written is the snapshot of the registry, sorted by key |
| `Store.Store.SaveLocked` | internal/store/store.go:154-197 | the file and the flag after a save with any outcome, with every state in between |
| `Store.Store.Save` | internal/store/store.go:138-142 | refines the operation of the run model |
| `Store.Store.SaveIfDirty` | internal/store/store.go:145-152 | saves only when dirty |
| `Store.Store.ApplyScan` | internal/store/store.go:203-233 | the objects after a scan, the flag, and whether the scan is worth an immediate save |
| `Store.Store.SetDiscoveredHostname` | internal/store/store.go:236-250 | refines the operation of the run model; whether it changed anything |
| `Store.Store.SetVendor` | internal/store/store.go:253-266 | refines the operation of the run model; whether it changed anything |
| `Store.Store.SetLabel` | internal/store/store.go:269-287 | refines the operation of the run model, with its errors and the outcome of the save |
| `Store.Store.DeleteDevice` | internal/store/store.go:292-305 | refines the operation of the run model, with its errors and the outcome of the save |
| `Store.Store.SetMapping` | internal/store/store.go:340-362 | refines the operation of the run model and returns a copy of the mapping as it now is, even when saving failed; invalid input changes nothing |
| `Store.Store.UpdateMapping` | internal/store/store.go:366-395 | refines the operation of the run model and returns a copy of the mapping as it now is, even when saving failed; a missing, taken or invalid name changes nothing; no new object |
| `Store.Store.DeleteMapping` | internal/store/store.go:399-409 | refines the operation of the run model; whether the mapping existed |
| `Store.Store.Lookup` | internal/store/store.go:412-424 | a copy of the device at the normalised MAC, if it is known |
| `Store.Store.ResolveHost` | internal/store/store.go:502-538 | the address the mapping object and the device object give is the one the registry resolves to |
| `Store.Store.ResolvePTR` | internal/store/store.go:514-528 | the search over sorted names computes `ResolvePtr` |
| `Store.Store.MappingRows` | internal/store/store.go:475-497 | one row for each mapping, by host name |
| `Store.Store.Counts` | internal/store/store.go:461-471 | the number of devices and the number of those that are online |
| `Store.Store.DeviceViews` | internal/store/store.go:428-458 | one view for each device with its sorted names, strictly ordered by address and MAC |
| `Server.Forward` | internal/dnsserver/server.go:292-326 | the upstreams are asked in turn until one answers; otherwise SERVFAIL |
| `Server.Handle` | internal/dnsserver/server.go:163-184 | what one raw message is answered with |
| `ServerTheorems.SilentOnlyToResponses` | internal/dnsserver/server.go:163-184 | a message is dropped iff it is too short for a header or is a response |
| `ServerTheorems.SoaRecordSize` | internal/dnsserver/server.go:278-288 | the errors ignored while building the SOA record never occur, and it takes 3 len(domain) + 50 octets |
| `ServerTheorems.SoaRecordReads` | internal/dnsserver/server.go:278-288 | a reader finds the domain, "ns." and "hostmaster." names, the serial and the timers 3600, 600, 86400 and the TTL in the SOA record |
| `ServerTheorems.LocalReplySize` | internal/dnsserver/server.go:188-276 | every reply sent from here has at most 322 + 3 len(domain) octets, so 512 for domains of up to 63 |
| `ServerTheorems.LocalAnswerSent` | internal/dnsserver/server.go:163-276 | building a local reply cannot fail, so a local answer is never forwarded, and it parses to what was put into it |
| `ServerTheorems.AnsweredHere` | internal/dnsserver/server.go:163-318 | a standard query is answered here, authoritatively and whatever the upstreams say, iff it is at or under the domain, a reverse query for a known IPv4 address, or about a known single label of another type than PTR where that is configured; any other gets the first upstream's octets or SERVFAIL |
| `ServerTheorems.ZoneIsAnsweredHere` | internal/dnsserver/server.go:163-255 | every standard query for the domain gets its SOA record, as answer iff SOA or ANY was asked for; every one for a host under it gets what is known of the host, so NXDOMAIN iff it is unmapped |
| `ServerTheorems.NameTold` | internal/dnsserver/server.go:227-255 | the parsed reply about a name has one record: the address if its type (1, 28 or 255) was asked for, otherwise the SOA record as authority; rcode 3 iff the name is unknown |
| `ServerTheorems.SingleLabelTold` | internal/dnsserver/server.go:205-210 | a single label is answered here iff that is configured, it is mapped and the type is not PTR, never with NXDOMAIN; otherwise it is relayed |
| `ServerTheorems.UnreadableQuestionRefused` | internal/dnsserver/server.go:173-176 | a single question that cannot be read gets exactly a FORMERR header under its ID and RD bit |
| `ServerTheorems.OthersAreForwarded` | internal/dnsserver/server.go:163-326 | every other readable query, by opcode, number of questions, class or name, gets the octets of the first upstream that answers, or SERVFAIL with its ID, opcode, RD bit and, if it was read, its question |
| `ServerTheorems.FirstAnswerIs` | internal/dnsserver/server.go:292-306 | the answer is that of the first upstream that does not fail |
| `ServerTheorems.CaseDoesNotMatter` | internal/dnsserver/server.go:163-276 | requests that differ at most in the case of letters of the name get the same local reply but for the echoed question |
| `ServerTheorems.ReverseAnswer` | internal/dnsserver/server.go:195-267 | a reverse query outside the zone for a mapped address is answered with the least name that has it |
| `ServerTheorems.ReverseLeadsBack` | internal/dnsserver/server.go:163-267 | the reply to a reverse query has one PTR record whose RDATA reads as the least full name, or is SERVFAIL iff that exceeds 253 octets; every A query for that name returns the address as the only record |
| `EndToEnd.AnswersFollowDevices` | internal/dnsserver/server.go:227-255 | after any run from no state file, crashes and restarts included, the octets sent for a mapped host parse to the last address reported for its device in the operations that were not lost |
| `EndToEnd.AcknowledgedAddressesAreServed` | internal/store/store.go:340-395 | an acknowledged static address is served after any later crashes and restarts, as long as no operation is about its name, and more generally until one changes the mapping |
| `EndToEnd.DeletedNamesAreUnknown` | internal/store/store.go:399-409 | a deleted name is answered with NXDOMAIN after any later crashes and restarts, until an operation maps it again |
| `Subnet.HostsInSubnet` | internal/scanner/netinfo.go:195-218 | gives up iff the subnet is too large or not IPv4; otherwise lists exactly its hosts in strictly increasing order, and no 32-bit sum wraps |
| `Subnet.HostListIsHosts` | internal/scanner/netinfo.go:195-218 | the listed addresses are those sharing the network part, without network and broadcast below /31 |
| `ProbeSchedule.Scanner.Consider` | internal/scanner/scanner.go:180-195 | one observation schedules a probe and updates both maps, or does neither |
| `ProbeSchedule.Scanner.SelectJobs` | internal/scanner/scanner.go:175-199 | at most 16 probes, those of the observations considered in turn, and all of them unless the limit was reached |
| `ProbeSchedule.JobsKeepSpacing` | internal/scanner/scanner.go:175-199 | the log of all probes stays spaced and the two maps stay in step with it |
| `ProbeSchedule.SpacedExact` | internal/scanner/scanner.go:175-199 | spaced means: a first probe finds its device nameless; two consecutive ones of a MAC are over ten minutes apart or go to different addresses |
| `ProbeSchedule.EligibleIsScheduled` | internal/scanner/scanner.go:175-199 | an observation is scheduled at its turn iff it is of another known device with an address that is nameless and was never probed or not for ten minutes, or was probed at another address |

## Left out

- Sockets, deadlines, goroutines, the TCP framing and the exchange with an upstream: an upstream is its outcome, an answer or a failure.
- The HTTP API, the pages it serves, authentication and logging.
- JSON beyond its texts: a document is its two record lists, whose octets that are not UTF-8 are replaced where it is read; syncing is taken as ideal once the rename succeeded, and a failing write leaves octets that are no document.
- Renaming a corrupt file aside is done by the caller of `Open`.
- `net.ParseIP` and `IP.String`: parameters with the three laws the program relies on, `Addresses.Lawful`.
- `net.ParseMAC` beyond six octets: `NormalizeMAC` refuses what it would read there.
- Case folding and whitespace outside ASCII.
- The clock and the SOA serial are parameters, and instants are unbounded integers.
- Concurrency: the registry does not change during one call of `handle` or one choice of probes, and store methods are atomic under its lock.
- Store.Store.Open: does not promise that every mapping has exactly one target, because a file this program did not write may hold others and `Open` does not refuse them; `Runs.MappingsStayAimed` starts without a file or from one that does not.
- Probing itself, the NetBIOS reply scanner, vendor and ARP tables, interface discovery and configuration files.
