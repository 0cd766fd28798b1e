# netparent, modelled and proved

netparent is two programs. A C daemon on an OpenWRT router keeps a table of the devices it
knows (DHCP leases and the nftables set of blocked MACs), blocks and unblocks devices on
command, and publishes the table over MQTT: change events, and a whole snapshot each round.
A Go web application handles those messages in any order, keeps a copy of each router's
table, shows it with vendor names, and sends the commands.

This project models that chain and proves what it is for. `dafny verify dfyconfig.toml` in
this directory checks it.

| file | models |
|---|---|
| `Text.dfy`, `Order.dfy` | C and Go strings and their order; sorting by a strict order |
| `Mac.dfy`, `MacLaws.dfy` | the MAC recogniser, its grammar, canonical form and laws |
| `Scan.dfy` | the listing of the set: buffer filling and the scan for MACs |
| `LeaseFile.dfy` | the text of the lease file: `fgets`, `sscanf`, and how a lease is written |
| `Devices.dfy`, `Inventory.dfy` | device records; the merging insert and the rebuild of the table |
| `Listing.dfy`, `Leased.dfy` | listings seen from outside; what every field of an entry shows, and who finds room |
| `Runs.dfy` | runs of a step system, shared by the replication, freshness and resolver systems |
| `Diff.dfy`, `Replication.dfy`, `Follower.dfy` | the change events; rounds, the network and agreement; a subscriber to the events alone |
| `Leases.dfy`, `Freshness.dfy`, `Watching.dfy` | the watcher object with its arrays; when the lease file is read again; the object through any schedule of changes, polls and commands |
| `Commands.dfy`, `Replied.dfy`, `Topics.dfy` | the command handler on the blocked set; what its replies tell; topics on both sides |
| `Store.dfy`, `Bus.dfy`, `Dashboard.dfy` | the web store on the heap, its message handlers, the device listing |
| `Collation.dfy` | the listing's byte order against a case-insensitive one |
| `Serving.dfy`, `RouterState.dfy` | the web store serving all routers, by way of topics, subscriptions and handlers; whether a router is online, and its times |
| `Oui.dfy`, `Vendor.dfy` | the vendor key; the concurrent vendor resolver and its rate limiter |
| `Session.dfy` | the session cookie |
| `EndToEnd.dfy` | from a click, by way of the router's handler and its rounds, to what the web application shows |

Code that changes arrays, fields or maps in place is written as methods and classes, and each
such method is proved against a function on values; the laws are proved about those functions.
The router's `np_leases` is `Leases.Watcher`, the Go store is `Store.Store` with its router and
device cells, the resolver is `Vendor.Resolver`. Concurrency is modelled as interleaved atomic
steps, one per critical section or handler call, over arbitrary runs. The critical sections of
the resolver are functions shared by the class and the step system. A page request makes its lookups one by one; between any two of them, goroutines of the
resolver take steps and messages are handled.

Facts about the outside world are parameters. A rebuild sees a `World`: the text of the lease
file with the times its lines are parsed, the text printed by the listing command (or none, if it
could not be started) and the answers to membership queries. Commands carry how their nft
invocations turn out. Clocks are arguments. The cookie signature is an arbitrary function of the
payload. JSON payloads are datatypes. Of libmosquitto it is taken that it refuses to publish to a
topic with a wildcard in it.

## Model

| member | source | states |
|---|---|---|
| Text.LessMeans | src/leases.c:43-47 | strcmp order: a proper prefix comes first, else the first character that differs decides |
| Text.HexTable | src/nft.c:27-30 | the hexadecimal digits, small and capital, and their values |
| Text.SpaceTable | src/nft.c:46-47 | white space is the six characters of the C locale |
| Text.LowerTable | src/nft.c:30 | capital letters become the small ones at the same place of the alphabet, nothing else changes |
| Text.FgetsStops | src/nft.c:217 | `fgets` takes up to and with the first line feed, or what there is room or text for |
| Mac.NormalizeInto | src/nft.c:17-69 | the loop over the input, writing an array of 18 characters and nothing beyond it, succeeds exactly when the automaton accepts and then leaves the canonical text and its terminator |
| Mac.WriteGroup | src/nft.c:34-45 | one digit is padded to two, the pair lands at the place of its group, and the character after it becomes the colon or keeps what it was; the earlier groups stay |
| Mac.ParseIffSpells | src/nft.c:17-69 | the exact language: the automaton accepts a string and reads an address from it iff, white space deleted, it is six groups of one or two hexadecimal digits separated by ':' or '-', with at most one trailing separator, whose values are the address |
| MacLaws.CanonicalRoundTrip | src/nft.c:17-69 | parsing the canonical text of an address gives the address back |
| MacLaws.NormalizeIdempotent | src/nft.c:17-69 | normalising a normalised string changes nothing |
| MacLaws.NormalizeInjective | src/nft.c:17-69 | two accepted strings have the same normal form iff they denote the same address |
| MacLaws.OrderPreserved | src/leases.c:43-47 | strcmp order of canonical strings is the numeric order of the 48-bit addresses |
| MacLaws.PatternTable | web/internal/server/server.go:24 | the pattern: 17 characters, five colons or hyphens in their places, hexadecimal digits of either case elsewhere |
| MacLaws.WebPatternIsAccepted | web/internal/server/server.go:24 | every string the web API's pattern accepts is accepted by the router and denotes the same six bytes |
| MacLaws.LooseSpelling | src/nft.h:6-8 | `1-2:3 -4:5:6:` is accepted and read as 01:02:03:04:05:06, though it is neither of the two spellings documented |
| Scan.FillBuffer | src/nft.c:214-219 | the fgets loop leaves exactly the first 4095 characters of the output, or all of it |
| Scan.ScanBuffer | src/nft.c:223-244 | the loop with its skipping index over the buffer reports what the scan reports |
| Scan.ScanIsLeftmost | src/nft.c:223-244 | on any text the MACs reported are those at the leftmost windows that do not overlap, and there is only one such list of positions |
| Scan.LeftmostMeans | src/nft.c:223-244 | each such position is a window, the next is at least 17 characters later, and no window starts between the end of one and the next |
| Scan.List | src/nft.c:199-246 | fill and scan together; nothing is reported if the command cannot be started |
| Scan.PrefixStable | src/nft.c:214-244 | for any text and any cut, scanning the prefix reports a prefix of what scanning the text reports |
| Scan.TruncationLosesOnlyASuffix | src/nft.c:214-220 | the buffer only loses MACs at the end, and none if the text has at most 4095 characters; of a longer text the first 4095 count |
| Scan.ScanRoundTrip | src/nft.c:222-244 | a text made of MACs with match-free padding before them is scanned back to exactly those MACs, lower-cased, in order |
| Scan.ReportedAreCanonical | src/nft.c:237-241 | every MAC reported is its own normal form |
| Listing.WindowIffPrinted | src/nft.c:225-236 | a window of the scan is the canonical text of some address with letters of either case, and nothing else is |
| Listing.ListingReported | src/nft.c:199-246 | for any set of addresses printed in either case with colonless text between that does not end in a hexadecimal digit: a listing of up to 4095 characters is reported as exactly these addresses, canonical and in order; a longer one as its first 4095 characters |
| Listing.ListingPrints | src/nft.c:199-246 | such a listing prints the set of its addresses in the sense used for a stable world |
| Inventory.AddOrMerge | src/leases.c:105-124 | the in-place insert into the 256-entry array merges into the first entry of the MAC, appends, or drops when full |
| Inventory.MergeInto | src/leases.c:110-115 | the five field updates of a merge, and no other entry touched |
| Inventory.InsertAllGroups | src/leases.c:105-124 | inserting any sequence of records one by one equals grouping it by MAC: the first 256 distinct MACs in order of arrival, each with its last informative values |
| Inventory.LastMeans | src/leases.c:111-115 | what "last informative value" is: the value of a record of that MAC after which none has one, or nothing if none ever had |
| Inventory.RebuiltIsInventory | src/leases.c:136-167 | the rebuilt table is strictly sorted by MAC and its entries are exactly the summaries of the MACs that found room, marked with what the listing and the queries say |
| Inventory.BlockedIffInSet | src/leases.c:154-163 | with a set that stays the same, every kept entry is flagged iff its MAC is in the set, even if the listing was cut or failed or the table filled up |
| Inventory.InventoryIsUnionIff | docs/MQTT_PROTOCOL.md:86-91 | the table never holds a MAC that is neither leased nor blocked; it holds all of both iff at most 256 different MACs were seen and every blocked MAC the listing lost is leased |
| Inventory.TooManyLeasesDropOne | src/leases.c:116-123 | 257 leases and an empty set: a table that is not the union |
| Inventory.UnleasedIsBlank | src/leases.c:126-134 | the entry of a device without a lease is exactly its MAC, blocked, no address, no name and zero times |
| Leased.LeasedFirst | src/leases.c:116-156 | a table holds at most 256 devices, and a blocked one never takes the place of a leased one: up to 256 leased devices are all there |
| Leased.LeasedHaveLines | src/leases.c:81-103 | a device is leased iff some line gives three fields of which the second is its MAC |
| Leased.FlagMeans | src/leases.c:152-163 | in any world an entry is flagged iff its MAC was listed or the query about it answered with a positive number; a failed query counts as no |
| Inventory.EntryIsCanonical | src/leases.c:90-94 | every MAC in the table is its own normal form |
| LeaseFile.LineMeans | src/leases.c:86-88 | a line with a number, signed or not, and words between any white space: with less than two words it is no lease, else the first two are the MAC and the IP, and a third is the name, cut to 63 characters |
| LeaseFile.LongMacSpills | src/leases.c:84-86 | a second field of more than 63 characters is read as if a blank stood after 63 of them |
| LeaseFile.LongIpSpills | src/leases.c:84-86 | a third field of more than 45 characters likewise |
| LeaseFile.NoNumberIsShort | src/leases.c:86-88 | a line without a number in front is no lease |
| LeaseFile.DecimalMeans | src/leases.c:86 | each digit counts ten times the one after it |
| LeaseFile.DigitTable | src/leases.c:86 | the ten digits and their values |
| LeaseFile.LineRoundTrip | src/leases.c:81-88 | a lease line as dnsmasq writes it, with or without a name, is split into its fields, whatever the client id |
| LeaseFile.LongLineIsCut | src/leases.c:143-144 | a line that does not fit is cut to 511 characters, and the rest is read as a line |
| LeaseFile.FileRoundTrip | src/leases.c:140-148 | a file of such lines, each of at most 511 characters, is read back line by line |
| Leased.EntryShowsLatest | src/leases.c:81-124 | in any world every entry shows, field by field, what the last line of its device that says anything says: address, name unless "*", expiry and time of reading unless zero; and nothing where no line of it says anything |
| Leased.OneLeaseExact | src/leases.c:81-163 | in terms of the text of the file: a device with one lease has exactly the record of the address and name written, membership in the set, the expiry written, zero included, and the time of reading |
| Leased.NothingWrittenNothingShown | src/leases.c:96-100 | leases with expiry 0 show no expiry, and leases without a name or with "*" show no name |
| Order.SortSorts | src/leases.c:165 | sorting by a strict order gives a sorted permutation |
| Order.SortedUnique | src/leases.c:165 | there is only one, so the algorithm behind qsort or sort.Slice does not matter |
| Leases.Watcher.constructor | src/leases.c:56-68 | a new watcher has published nothing and kept no stat |
| Leases.Watcher.Rebuild | src/leases.c:136-167 | the three passes over the array and the sort leave exactly the rebuilt table of the world seen |
| Leases.Watcher.ReadLeases | src/leases.c:140-149 | the loop over the text of the file, taking a line or a full buffer at a time, inserts the records of the lines that parse |
| Leases.Watcher.DiffAndEmit | src/leases.c:218-253 | no event in the first round, else the merge of the previous and the current table; the table is remembered |
| Leases.Watcher.Republish | src/leases.c:274-280 | one round sends its events and then the whole rebuilt table, depending only on the table published before and on the world |
| Leases.Watcher.Poll | src/leases.c:282-298 | a round happens iff the stat differs from the one kept or nothing was published yet; otherwise nothing changes |
| Diff.MergeArrays | src/leases.c:227-249 | the two-pointer loops terminate and emit the merge of the two arrays |
| Diff.MergeAnnounces | src/leases.c:227-249 | an event is emitted iff the two tables, read as sets, call for it: added iff only in the new one, removed iff only in the old one, changed iff in both and different beyond the time of last sight |
| Diff.MergeIncreases | src/leases.c:227-249 | the events come in strictly increasing MAC order, so there is at most one per MAC |
| Diff.ApplyAllReflects | web/internal/store/store.go:89-107 | coherent events handled in any order, any number of times, all take effect, and nothing else changes |
| Diff.BatchCommutes | web/internal/mqttbus/bus.go:163-187 | any sequence with the same events as one round's batch, reordered and repeated, leads to the same map |
| Diff.MergeAdvances | src/leases.c:181-189 | the events carry a map that agrees with the old table, up to the times of last sight, to one that agrees with the new table |
| Replication.KeepsReplicaIffConfirms | web/internal/mqttbus/bus.go:147-187 | a map equal to a table still equals it after a message iff the message says nothing the table does not say |
| Replication.ReplicaKeptIff | web/internal/mqttbus/bus.go:147-187 | for any run of messages: from a snapshot on, the map equals its table after each message iff every later message confirms the table |
| Replication.ReplicaIffByMac | web/internal/store/store.go:76-79 | for a sorted table, holding exactly its devices, each under its own MAC, is being the map that `ReplaceDevices` builds |
| Replication.RoundConfirms | src/leases.c:218-280 | every message of a round confirms the table of that round |
| Replication.RoundMeans | src/leases.c:218-280 | a round is, in this order, the events its two tables call for, each once and by ascending MAC, and then the snapshot |
| Replication.FirstRoundIsSnapshot | src/leases.c:220-225 | the first round is its snapshot alone |
| Replication.ReachableKeepsInv | web/internal/mqttbus/bus.go:41 | in every state reached by publishing, delivering in any order, duplicating, losing and resending, every packet under way or handled belongs to its round and the web map is the fold of the handled messages |
| Replication.ReplicaAgreement | web/internal/store/store.go:72-107 | from any starting store and in every reachable state: once a round's snapshot was handled and only packets of that round after it, the web map holds exactly the devices of that round's table |
| Replication.Convergence | web/internal/mqttbus/bus.go:147-187 | once nothing of an earlier round is under way, every schedule that handles a snapshot ends with the latest table |
| Replication.AgreementLastsIff | web/internal/store/store.go:72-107 | for any reachable state: since a round's snapshot was handled the web map held that round's table in every state on the way iff each packet handled since, of whatever round, confirms the table |
| Replication.StaleRemovalBreaksAgreement | web/internal/store/store.go:98-107 | agreement can be lost: a reachable state in which a removal of an earlier round, handled after a newer snapshot, took away a device that had come back; `Replication.AgreementLastsIff` says exactly when it is not |
| Follower.FollowerAgrees | docs/MQTT_PROTOCOL.md:124-136 | over any run of rounds a subscriber that starts from one snapshot and then applies only events holds the router's table, up to the times of last sight |
| Follower.FollowerHoldsNews | src/leases.c:227-249 | about each MAC it holds what the table of the last round with an event for it said |
| Follower.FollowerExactIff | src/leases.c:181-189 | after any run of rounds it holds the very same records iff each device in the table has the time of last sight it had in the last round with an event for it |
| Follower.MerelySeenGoesUnnoticed | src/leases.c:181-189 | a device that was only seen again: the subscriber's record is not the router's |
| Freshness.RunKeepsInv | src/leases.c:282-298 | in every run of file changes, half polls and commands: version kept by stat <= version of the table <= version of the file, except that a due republish may lag the stat |
| Freshness.VersionsInOrder | src/leases.c:274-298 | that order, and freshness of idle polls, in every reachable state when no later file version has an all-zero stat |
| Freshness.FreshIffStampsTell | src/leases.c:286-297 | for any stats whatever: a poll that does nothing always leaves a table built from the version it saw iff different versions differ in modification time or size and no version after the first has both zero, the values of a new watcher |
| Freshness.ZeroStampIsMissed | src/leases.c:60-66 | a run that goes wrong: a command before the first poll, then a version with an all-zero stat |
| Freshness.SharedStampIsMissed | src/leases.c:286-297 | another: a version written within the second of an earlier one, with the same size |
| Watching.PollTable | src/leases.c:282-298 | a poll leaves the table that was there or one of the version read; if stats tell versions apart, it leaves the old one only if that is of the version the stat saw |
| Watching.Watch | src/leases.c:282-298 | the watcher object through any schedule of file changes, polls, changes between a poll's stat and its read, and commands: it is in the state of the version system, and if stats tell versions apart the table published after a poll is no older than the version its stat saw |
| Watching.PollWithoutFile | src/leases.c:286-297 | without a lease file a new watcher publishes one snapshot at its first poll and nothing at later ones |
| Watching.MissChange | src/leases.c:282-298 | if they do not, on the object: a table of an older version that stays published through a poll |
| Commands.Handler.HandleMessage | src/handler.c:59-149 | each message is ignored or answered and changes the set as specified; a round is published, if there is a watcher, iff a block or unblock was answered as success |
| Commands.Handler.HandleRun | src/handler.c:59-149 | a run of messages leaves the set and sends the replies that the laws below are about |
| Commands.AnsweredIff | src/handler.c:13-91 | a message is answered, that is, its answer handed to MQTT, iff its topic is the router's prefix and an action, the id fits its buffer, the payload is JSON, and `req_id` is a non-empty string, or any string for `list`; MQTT takes the answer iff neither the id nor the `req_id` has a wildcard |
| Commands.UnderstoodIff | src/handler.c:13-84 | a message is a command iff its topic is the router's prefix and an action, the id has at most 112 characters, and its payload is JSON |
| Replied.ReplyTells | src/handler.c:27-149 | a command gets one reply iff it asks for one; the reply carries its `req_id` and action, and tells what became of it: of a block or unblock, ok iff it was carried out, the MAC as sent, and the set afterwards; of a status, membership; of a list, the listing; a ping is ok, an unknown action is not; errors by their texts |
| Replied.MessageTells | src/handler.c:59-149 | the same for a message: a request is answered by exactly one such reply |
| Replied.RepliesInOrder | src/handler.c:59-149 | the replies of a run are, in order, those to the commands that ask |
| Replied.RepliesRuleIff | src/handler.c:94-111 | if every block and unblock asks, the replies alone tell the set throughout a run iff no delete of an element that is present fails |
| Replied.ReportsTell | src/handler.c:112-139 | after such a run the replies to `status`, for any spelling, and to an uncut `list` say what the replies before said |
| Replied.RunAndTell | src/handler.c:59-149 | all this of the replies the handler object sends in a run of messages, and of its set |
| Commands.EmptyIdIsNotAnswered | src/handler.h:24-25 | a well-formed ping with an empty `req_id` gets no response |
| Commands.Handler.Block | src/nft.c:156-167 | returns 0 iff the MAC normalises and the add succeeds, and then the canonical MAC is in the set; otherwise the set is unchanged |
| Commands.Handler.Unblock | src/nft.c:169-181 | returns 0 iff the MAC normalises, whatever the delete returned |
| Commands.Handler.IsBlocked | src/nft.c:183-197 | positive, zero or negative for a member, a non-member, a failing query or a bad MAC |
| Commands.AnswersRuleIff | src/handler.c:94-111 | throughout a run the set is the initial one overridden per canonical MAC by the last success answered, iff no delete of an element that is present fails |
| Commands.ReportsAgree | src/handler.c:112-139 | after a run in which no delete of a present element failed, `status`, for any spelling, and an uncut `list` say what the successes answered before say |
| Topics.ActionRecoveredIff | src/handler.c:13-25 | the router recovers exactly the action the web application formatted iff its id has at most 112 characters; with a longer id it accepts no topic at all |
| Topics.NoForeignCommand | src/handler.c:19-20 | a router never accepts a command topic formatted for a different slash-free id |
| Topics.RouterIdRecoveredIff | web/internal/mqttbus/bus.go:123-129 | the web application recovers a slash-free id from the router's snapshot topic iff it has at most 117 characters, from its event topic iff at most 149 |
| Topics.RouterIdMeans | web/internal/mqttbus/bus.go:123-129 | an id is read from the topics `netparent/<id>` and `netparent/<id>/...` and from no others |
| Topics.SnapshotSubscribedIff | src/mqtt.c:278-279 | the snapshot topic matches the web application's subscription iff the id has at most 109 characters |
| Topics.EventSubscribedIff | src/mqtt.c:296-298 | the event topic matches its subscription iff the id has at most 136 characters |
| Topics.StatusArrives | src/mqtt.c:119 | the status topic is not cut: it matches its subscription and gives back a slash-free id whatever its length |
| Store.Store.GetOrCreate | web/internal/store/store.go:148-155 | the router of that id, new and empty if it was unknown |
| Store.Store.UpsertDevice | web/internal/store/store.go:89-95 | the view changes at one device of one router, and every key stays the MAC of its device |
| Store.Store.RemoveDevice | web/internal/store/store.go:98-107 | the view loses one device of one router; an unknown router is not created |
| Store.Store.ReplaceDevices | web/internal/store/store.go:72-86 | one router's devices become the list, keyed by MAC, and its times are set |
| Store.Store.SetOnline | web/internal/store/store.go:62-68 | one router's state and time change |
| Store.Store.Router | web/internal/store/store.go:127-146 | null iff unknown, else an object graph that is fresh throughout and has equal contents |
| Store.RouterCell.DevicesList | web/internal/store/store.go:33-50 | the cells in listing order, for any order of walking the map |
| Store.ListOrder | web/internal/store/store.go:38-48 | the comparator is a strict total order on devices with different MACs |
| Store.ListingUnique | web/internal/store/store.go:33-50 | so the listing of a map is one and the same sequence for every walk and every sorting algorithm |
| Store.ListingMeans | web/internal/store/store.go:38-48 | in a listing named devices come before unnamed ones, names ascend, and devices of one name, or of none, ascend by MAC |
| Store.KeyedMeans | web/internal/store/store.go:76-79 | of several devices of a list with one MAC the last one stays |
| Collation.ListingFoldsIff | web/internal/store/store.go:38-48 | the listing order is the case-insensitive one for all names over a set of letters iff folding keeps the order of those letters |
| Collation.CapitalsComeFirst | web/internal/store/store.go:38-48 | "B" is listed before "a" |
| Bus.Handlers.HandleStatus | web/internal/mqttbus/bus.go:131-145 | the state of the router named in the topic is noted; bad topics and bad JSON change nothing |
| Bus.Handlers.HandleDevices | web/internal/mqttbus/bus.go:147-161 | a snapshot replaces the devices of the router named in the topic; bad topics and bad JSON change nothing |
| Bus.Handlers.HandleDeviceEvent | web/internal/mqttbus/bus.go:163-187 | the switch on the event's name, with missing members and unknown names ignored |
| Bus.Handlers.Receive | web/internal/mqttbus/bus.go:107-121 | each publication goes to the handler of its kind, and no object comes into the store but new ones |
| Bus.SnapshotFollows | web/internal/mqttbus/bus.go:147-161 | on the store's view a snapshot does what the replication protocol says, and touches no other router |
| Bus.EventFollows | web/internal/mqttbus/bus.go:163-187 | so does an event as the router words it |
| Bus.EventsByName | web/internal/mqttbus/bus.go:178-187 | "added" and "changed" put the device carried, if any, "removed" takes away that of the MAC carried, if any, and any other name does nothing |
| Bus.BadIsIgnored | web/internal/mqttbus/bus.go:131-177 | bad JSON and topics that name no router change nothing |
| Bus.WireMeans | src/leases.c:191-249 | the words and members of the events the router sends |
| Serving.StoreFollows | web/internal/mqttbus/bus.go:107-187 | in any mix of snapshots, events and status messages of any routers, the view of each router is the protocol's fold of that router's own messages that arrive |
| Serving.Deliver | web/internal/mqttbus/bus.go:107-121 | one message by way of its formatted topic, MQTT and the subscriptions: it reaches its handler iff the id is not empty, has no wildcard and has at most 109 characters for a snapshot, 136 for an event; else nothing changes |
| Serving.Serve | web/internal/mqttbus/bus.go:107-187 | any mix of messages of any routers, by way of topics and handlers, does to the store object what the fold does to its view |
| Serving.StoreIsReplica | web/internal/store/store.go:72-107 | agreement for the view of any router whose messages in the mix are those of a run of the protocol that ends with a round's snapshot and only that round's packets after it |
| Serving.ServeRouters | web/internal/store/store.go:72-107 | agreement for the store object: after any mix it holds exactly the tables of all such routers at once |
| RouterState.StateFollows | web/internal/store/store.go:62-107 | after any mix of messages of any routers: a router is online iff the last of its status messages that arrived said so; its snapshot time is the positive time its last snapshot carried, else when that came; its update time is that of its last message, a removal counting only for a known router; where there was none, all is as before, and offline and zero for a new router |
| RouterState.KnownIff | web/internal/store/store.go:98-155 | a router is known iff it was before or some status, snapshot, or added or changed event of it arrived; a removal does not make it known |
| RouterState.NoVendorStored | web/internal/store/store.go:20-21 | no message brings a vendor into the store |
| RouterState.ServeStates | web/internal/store/store.go:62-107 | all this of the store object fed by topics |
| Dashboard.HandleAPIDevices | web/internal/server/server.go:126-149 | the answer is the router's own fields and its listing at the time of the copy, all fresh, each device with the vendor cached when its lookup came; resolver and store end as the lookups, the other goroutines' steps and the messages handled meanwhile say, and nothing else changes |
| Dashboard.StoredIsShown | web/internal/oui/oui.go:56-98 | once a successful answer is stored, every later lookup of a MAC with its key shows the vendor answered, or nothing if there was none, and starts no fetch |
| Dashboard.ShownIffAnswered | web/internal/oui/oui.go:56-98 | a vendor is shown iff the API answered with it for the key of the MAC and the answer is stored |
| Dashboard.ShownIsFinal | web/internal/oui/oui.go:56-98 | a vendor shown on a page is the one every later lookup of that MAC shows |
| Dashboard.SameKeySameVendor | web/internal/server/server.go:137-139 | of two devices with the same key on a page, the lower shows what the upper shows, unless the upper shows nothing |
| Dashboard.LookupStartsIff | web/internal/oui/oui.go:62-70 | a lookup of a request starts a fetch iff its MAC has a key, no fetch for the key was ever answered with success, and none is live at that moment |
| Dashboard.SecondFetchAfterFailure | web/internal/oui/oui.go:78-98 | so one request can start two fetches for a key: a run in which the first fails before the second lookup |
| Dashboard.Interleave | web/internal/server/server.go:137-139 | however writes to a copy and messages of the three kinds interleave, the store shows the messages alone and the copy its writes alone |
| Dashboard.CopyThenInterleave | web/internal/store/store.go:127-146 | the copy `Router` returns is such a copy, whatever is handled afterwards |
| Oui.ComputeOuiKey | web/internal/oui/oui.go:153-173 | the loop with its builder computes the key |
| Oui.OuiKeyMeans | web/internal/oui/oui.go:151-173 | a string has a key iff some prefix holds only marks and digits, six digits in all, and the key is those digits in lower case |
| Oui.MarkTable | web/internal/oui/oui.go:157-159 | the marks skipped are colon, hyphen and dot |
| Oui.KeySurvivesNormalisation | web/internal/oui/oui.go:153-173 | a MAC the web API accepts has the same key before and after the router normalises it |
| Vendor.Resolver.Lookup | web/internal/oui/oui.go:56-76 | the cached vendor or nothing; a fetch is started iff the key is neither cached nor in flight, and is then marked |
| Vendor.Resolver.Store | web/internal/oui/oui.go:87-97 | an error leaves the cache alone; an empty vendor is stored as confirmed unknown |
| Vendor.Resolver.RespectRateLimit | web/internal/oui/oui.go:100-107 | a release less than 600 ms after the previous one is put off by a sleep of exactly the time missing, any other by nothing; if a sleep lasts as asked, two releases are at least 600 ms apart |
| Vendor.AcquireWakes | web/internal/oui/oui.go:100-107 | in the step system a fetch sleeps until 600 ms after the last release, and not at all if that is past |
| Vendor.Resolver.Perform | web/internal/oui/oui.go:56-107 | every step of the step system, taken on the object, leaves the object in the state the system says |
| Vendor.MissesIff | web/internal/oui/oui.go:62-70 | in every reachable state a key is neither cached nor in flight iff no fetch for it was ever answered with success and none is live |
| Vendor.StepKeepsInv | web/internal/oui/oui.go:56-107 | every atomic step of every goroutine keeps single flight, pending keys uncached, one success, one write and the limiter's order |
| Vendor.OneFetchOneAnswerOneWrite | web/internal/oui/oui.go:56-98 | in every interleaving: at most one live fetch per key, live iff the key is in flight; at most one successful answer and one cache write per key |
| Vendor.CacheNeverChanges | web/internal/oui/oui.go:88-97 | what is cached in a reachable state is cached unchanged in every later one |
| Vendor.RateBound | web/internal/oui/oui.go:28 | any n successive releases span at least (n - 1) times 600 ms, and no second (10^9 ns) holds three |
| Session.Base64RoundTrip | web/internal/auth/auth.go:57 | decoding unpadded base64url undoes encoding, and the encoded text holds no dot |
| Session.AlphabetMeans | web/internal/auth/auth.go:57 | the alphabet of base64url, and that its letters and no other characters have values |
| Session.GroupMeans | web/internal/auth/auth.go:57 | three bytes and their four sextets are the same 24 bits, and one or two bytes at the end are padded with zero bits |
| Session.DecodesIff | web/internal/auth/auth.go:107 | a text is decoded iff it holds letters and line breaks only and leaves no single letter over from groups of four |
| Session.ParsePrintInt | web/internal/auth/auth.go:120 | reading back a printed 64-bit number gives the number, and no bar is printed |
| Session.PrintMeans | web/internal/auth/auth.go:55 | digits only, no leading zero, and a minus sign before the digits of a negative number |
| Session.ParseIntIff | web/internal/auth/auth.go:120 | what is read is a printed number with any leading zeros and an optional sign, provided it has 64 bits, and nothing else |
| Session.CookieRoundTrip | web/internal/auth/auth.go:102-128 | for every username and every 64-bit expiry, an issued cookie names its user iff the username has no bar and the time is before the expiry; the error is stated in the other cases |
| Session.NamesUserIff | web/internal/auth/auth.go:102-128 | any cookie value whatever names a user iff it is an encoded payload, a dot and the signature of that payload, and the payload is the name, which has no bar, a bar, and a 64-bit time still to come |
| Session.SignatureFixesUser | web/internal/auth/auth.go:107-127 | if no other payload has its signature, a cookie carrying the signature of an issued one names the same user or none, however its first part is written |
| EndToEnd.RunRounds | src/leases.c:274-280 | a watcher that republishes for a run of worlds sends exactly the messages the protocol's rounds put under way |
| EndToEnd.RebuiltIsPublishable | src/leases.c:136-167 | every rebuilt table meets what the protocol asks of a published one |
| EndToEnd.GrantShowsInTable | src/handler.c:94-111 | the table rebuilt after a granted block or unblock flags the device as granted, and lists a blocked one if nothing was cut or dropped |
| EndToEnd.GrantReachesStore | src/handler.c:94-111 | and so does the web application's map in every run that publishes this table next, once its snapshot was handled with only that round's packets after it |
| EndToEnd.HandleCommand | src/handler.c:94-111 | the handler object itself: a granted command makes its watcher publish the rebuilt table, with the messages of the protocol's next round, and every run that goes on from there shows the grant |
| EndToEnd.ClickMeans | web/internal/server/server.go:159-168 | a click is sent iff the MAC has the pattern and the router has a name: to `netparent/<id>/cmd/block` or `unblock`, with the MAC in small letters |
| EndToEnd.ClickGrantedIff | web/internal/server/server.go:159-168 | a click becomes a command at its router iff the MAC has the pattern and the id is not empty and at most 112 characters long; it is then granted, for the address clicked on, unless it is a block and the add fails |
| EndToEnd.HandleClick | web/internal/server/server.go:159-177 | from the click on: the router's handler object publishes a round, and every run that goes on from there shows the device as wanted once that round's snapshot came last |

## Where the code and its documentation differ

The model follows the code.

- `src/nft.h:6-8` names two spellings of a MAC; the code also takes one-digit groups, mixed
  separators, white space anywhere and one trailing separator (`Mac.ParseIffSpells`,
  `MacLaws.LooseSpelling`).
- `docs/MQTT_PROTOCOL.md:86-91` promises the union of leased and blocked devices; the code
  keeps 256 devices and reads 4095 bytes of the listing (`Inventory.InventoryIsUnionIff`, and
  `Inventory.TooManyLeasesDropOne` for an input).
- The example at `docs/MQTT_PROTOCOL.md:109-116` shows a time of last sight for a device without a
  lease; the code sends 0 (`Inventory.UnleasedIsBlank`).
- `docs/MQTT_PROTOCOL.md:134-136` offers the events as a live feed; they leave out a device that
  was only seen again (`Follower.FollowerExactIff`, `Follower.MerelySeenGoesUnnoticed`).
- `docs/MQTT_PROTOCOL.md:121-122` has the snapshot republished whenever the lease file changes; a
  change that keeps the file's modification time in seconds and its size is missed
  (`Freshness.FreshIffStampsTell`, `Freshness.SharedStampIsMissed`).
- `src/handler.h:24-25` promises a response whenever `req_id` is given; with an empty one only
  `list` responds, and with a wildcard in it MQTT refuses the response (`Commands.AnsweredIff`,
  `Commands.EmptyIdIsNotAnswered`).
- `src/nft.h:21` calls unblocking idempotent; a delete that fails for any other reason than
  absence is answered as success as well (`Commands.AnswersRuleIff`).
- `web/internal/store/store.go:39` calls the listing case-insensitive; the code compares bytes
  (`Collation.ListingFoldsIff`, `Collation.CapitalsComeFirst`).

## Left out

- Connections, TLS, reconnecting, Last Will and subscribing: handled by libmosquitto and paho; only topics and at-least-once, unordered delivery are modelled.
- Messages of an earlier round handled after a newer snapshot: nothing orders rounds in the store, so agreement is not promised there; `Replication.AgreementLastsIff` says exactly when it lasts.
- JSON text: payloads are datatypes; device pointers are not null and times are exact in a double.
- Mac.NormalizeInto: null pointers are not modelled; a string is its characters before the terminator.
- Scan.FillBuffer: the listing text is assumed to hold no NUL character, which would stop `strlen` early.
- LeaseFile.LineMeans: the text holds no NUL character and numbers fit in a `long`.
- Leases.Watcher.Rebuild: `qsort` is modelled by a sorting function; `Order.SortedUnique` shows that any other gives the same table. Failed memory allocation is not modelled.
- Commands.Handler.HandleMessage: running `nft` is modelled by flags saying which invocation fails, and a flag for a failing delete means that the element stays; a failing delete of an absent element changes nothing either way.
- Freshness.FreshIffStampsTell: the lease file stays present and readable, and one read sees one version.
- Watching.Watch: the same.
- Topics.NoForeignCommand: ids with slashes are not considered, as `device_id` is one topic level.
- Serving.Deliver: ids with slashes likewise; that MQTT also refuses topics that are too long or not UTF-8 is not modelled.
- Vendor.OneFetchOneAnswerOneWrite: the HTTP call is an outcome, an error or a vendor; how a response becomes one, and time spent in the call, are not modelled.
- Vendor.RateBound: bounds the release times of the limiter with a monotone clock; when the requests reach the network is not modelled.
- Session.CookieRoundTrip: the signature is an arbitrary function; bcrypt, HMAC, cookie attributes and timing are not modelled.
- Store.Store.Router: the read-write lock is modelled by one method being one atomic step.
- `Routers`, configuration, logging, HTTP routing, templates and scripts: only easy claims.
- Persistence of the block list across reboots: announced in the repository's README, but no code of the repository implements it.
