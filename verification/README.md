# Earth Eternal server: a verified model of its stateful cores

The game server keeps its world in memory and shares parts of it with other shards through a
key store and published messages. This project models, in Dafny, the places where that state is
hardest to keep right, and proves what each of them keeps over every run:

- **Shared pieces** (`Common`): optional values, the clock's width, C++ division and the search
  loop that the lists of the server share.
- **Entity store** (`Text`, `ListCodec`, `EntityStore`). The writer turns a stream of (section,
  key, value) triples into runs and flushes each run to one hash; the reader loads a section on
  first use. The grouped form is proved to refine writing triple by triple, a fresh reader
  returns the last value written, and string lists survive printing, escaping, splitting and
  unescaping.
- **Shard protocol** (`KeyOrder`, `IdOrder`, `ClusterProtocol`, `ClusterSafety`,
  `MasterElection`). One node's tables change by messages from other shards. `Next` gives the
  whole new state of every step; each method of `ClusterManager` is proved equal to it, and
  hand-over safety, conservation of transfer tokens and the election are proved over runs of
  `Next`.
- **Caches and registries** (`CharacterCache`, `ChatChannels`, `AccountSlots`, `AuctionBids`).
- **Spawning** (`UniqueSpawn`, `Spawner`, `TileSweep`, `SpawnTable`).
- **Rules and codecs** (`Crafting`, `FunctionList`, `ImplicitActions`, `WireCodec`).

A class of the source is a class here; its methods are proved against a function on values
(`Next`, `Visited`, `Placed`, …) and the properties are lemmas about that function. A `std::map`
iteration is a loop over the keys in ascending order. `mActiveShards[name]` used as a value
inserts a blank record for an unknown name, and the model does so too.

The clock is a parameter of every step, random numbers and the answers of the store are
parameters or arbitrary values, and a message handler is one atomic step.

## Where the code departs from what it says

The model follows the code.

- The comment at `SOURCE/Server/Cluster.cpp:278-280` says the list of subkeys is trimmed. `End`
  deletes the hash of a stale subkey but leaves its key in the list (`EndLists`,
  `ListTrimmedIff`, `StaleStaysListed`).
- `Value` and `ListValue` use the section name as written, but the empty section and a section
  literally named `DEFAULT` share one hash (`SectionKeyInjective`, `DefaultSectionClash`). When a
  value is read back is stated exactly (`LastWriteReadBackIff`).
- The reader accepts a separator but always splits at commas and undoes only the separator's
  escape: with a separator of its own, the commas of the elements stay escaped (`RoundTripIff`).
- The list printer drops leading empty elements, because it writes a comma only once something
  has been written (`RoundTripIff`).
- A node enters the time of its initialisation for its own shard
  (`SOURCE/Server/Cluster.cpp:1517`) but announces the earlier time of its launch
  (`SOURCE/Server/Cluster.cpp:992`). Nodes that know each other therefore elect the same master
  only if one of them was initialised before any other was launched (`AgreementIff`,
  `TwoNodesAgreeIff`); two nodes started a fifth of a second apart need not (`ElectionSplits`).
- A new shard is entered with start time 0, so an election held before its configuration arrives
  elects it (`UnconfiguredMasterIff`, `NewShardTakesOver`).
- A count updated for a shard that has gone (`SOURCE/Server/Cluster.cpp:1254`, for one) inserts a
  record with no name and start time 0. That record wins later elections, and then no node is
  master (`NamesKeptIff`, `NamelessWins`, `HandOverFromStoppedShard`). The shard's own messages do
  not repair it (`NamelessUntilReplaced`).
- `UpdateSpawnDelay(60)` is meant to retry after 60 seconds, but the argument is computed and
  then not used (`SOURCE/Server/CreatureSpawner2.cpp:99-105`): the retry comes after 60 seconds
  exactly when that is the spawner's own delay (`RetryIn60Iff`, `RetryIsLate`).
- `NextValue` answers 0 when the store does not, and `CreateCharacter` then stores that 0 in the
  slot, where it means "free", while the cache gets an entry (`CreateAgreesIff`,
  `UnansweredCreate`).
- Credits alone can outbid copper, so with two currencies the standing bid can fall
  (`IncreasingIff`, `CreditsUndercut`).
- Inputs with equal (type, ID) are left in whatever order the library sort gives them, and that
  order can decide whether a recipe matches (`OrderIndependentIff`, `TiesMatter`).

## Model

| member | source | states |
|---|---|---|
| Text.Split | SOURCE/Server/Util.cpp:944-962 | the loop, which resumes one character past the start of a match, yields exactly `Pieces` (the same loop is SOURCE/Server/Ability2.cpp:298-315) |
| Text.PiecesRejoin | SOURCE/Server/Ability2.cpp:298-315 | for every delimiter, gluing the pieces with its first character gives back the source |
| Text.PiecesClean | SOURCE/Server/Ability2.cpp:298-315 | with a one-character delimiter no piece contains it |
| Text.PiecesOfJoin | SOURCE/Server/Ability2.cpp:298-315 | splitting a join of delimiter-free strings gives those strings back |
| Text.ReplaceAllTo | SOURCE/Server/Util.cpp:1424-1433 | searching and splicing in place equals replacement decided one position at a time, left to right |
| ListCodec.SplitEscaped | SOURCE/Server/Util.cpp:915-942 | the loop cuts exactly at delimiters not preceded by an unescaped backslash |
| ListCodec.Print | SOURCE/Server/Cluster.cpp:351-360 | the loop writes `Printed`: escaped elements, with a comma only once something is written |
| ListCodec.Parse | SOURCE/Server/Cluster.cpp:230-246 | the reader's split and two sequential replacements, for any separator argument |
| ListCodec.UnescapeEscape | SOURCE/Server/Cluster.cpp:242-243 | the two replacements, one after the other, undo the escaping of any string |
| ListCodec.EscapedCharacter | SOURCE/Server/Cluster.cpp:356 | the written form: backslashes doubled, commas with a backslash, all else as it is |
| ListCodec.ParsePrint | SOURCE/Server/Cluster.cpp:351-360 | for every list and separator, reading what was written gives the list without its leading empty elements, each escaped and unescaped on its own; with "" and "," that is the element itself, with a separator free of commas and backslashes the element with its commas escaped |
| ListCodec.RoundTripIff | SOURCE/Server/Cluster.cpp:230-246 | for every separator the round trip holds if and only if the list is empty or starts with a non-empty element and every element survives: always with "" and ",", and with a separator free of commas and backslashes exactly without a comma in it |
| EntityStore.Writer.Value | SOURCE/Server/Cluster.cpp:346-349 | a triple with the current section is appended |
| EntityStore.Writer.ListValue | SOURCE/Server/Cluster.cpp:351-360 | a triple with the printed list is appended |
| EntityStore.Writer.Flush | SOURCE/Server/Cluster.cpp:318-332 | flushing a run leaves the store as if each of its triples had been written alone, and takes its key off the keys to clear |
| EntityStore.Writer.FlushRun | SOURCE/Server/Cluster.cpp:318-332 | the three commands of a flush: the key moves to the end of the list and its hash is overridden by the run |
| EntityStore.Writer.WriteRuns | SOURCE/Server/Cluster.cpp:295-332 | for any interleaving of sections, the loop and the final flush write every triple in order |
| EntityStore.Writer.Clear | SOURCE/Server/Cluster.cpp:333-337 | exactly the given keys are deleted |
| EntityStore.Writer.End | SOURCE/Server/Cluster.cpp:269-344 | the whole new store: triple-by-triple writing followed by deleting the listed, unwritten subkeys |
| EntityStore.RunIsWriteAll | SOURCE/Server/Cluster.cpp:295-332 | one flush of a run is the run written one triple at a time, list included |
| EntityStore.FieldsOfIsLast | SOURCE/Server/Cluster.cpp:295-332 | the fields of a section's hash are those written, each with the last value written |
| EntityStore.HashAfter | SOURCE/Server/Cluster.cpp:295-332 | each hash is its old content overridden by all the pairs written to it |
| EntityStore.EndHashes | SOURCE/Server/Cluster.cpp:269-344 | written hashes are overridden, stale ones deleted, all others untouched |
| EntityStore.EndLists | SOURCE/Server/Cluster.cpp:278-317 | each written key is listed once, stale keys stay listed as often as before, no other list changes |
| EntityStore.LastWrittenIsLast | SOURCE/Server/Cluster.cpp:329-330 | the key of the section written last is the last of the list |
| EntityStore.ListTrimmedIff | SOURCE/Server/Cluster.cpp:278-280 | the list holds only written keys, as the comment promises, if and only if no listed key was left unwritten |
| EntityStore.StaleStaysListed | SOURCE/Server/Cluster.cpp:278-280 | two writes after which a section without a hash is still listed |
| EntityStore.OnlySubkeysKept | SOURCE/Server/Cluster.cpp:281-317 | the list never holds anything but section keys of its entity, so the results above apply to every later write |
| EntityStore.SectionKeyInjective | SOURCE/Server/Cluster.cpp:181-188 | two sections share a hash if and only if they are equal or are the empty one and `DEFAULT` |
| EntityStore.Reader.CheckLoaded | SOURCE/Server/Cluster.cpp:190-204 | a loaded section is left alone; an unloaded one gets the fields of its hash, in any order; other sections are untouched |
| EntityStore.Reader.Value | SOURCE/Server/Cluster.cpp:216-228 | while the store is unchanged every read answers from it, the first of a section and all later ones, and the loaded copies stay current |
| EntityStore.Reader.ListValue | SOURCE/Server/Cluster.cpp:230-246 | while the store is unchanged every read parses the stored value, first or later |
| EntityStore.ReadBack | SOURCE/Server/Cluster.cpp:190-228 | after `End`, for every section and key: the last value written, else the default if the section went stale, else the old value |
| EntityStore.LastWriteReadBackIff | SOURCE/Server/Cluster.cpp:216-228 | the last value written for a (section, key) is read back if and only if the last write of the key under either name of the section holds the same value; a later write under another name exists only for the default section |
| EntityStore.DefaultSectionClash | SOURCE/Server/Cluster.cpp:181-188 | writing both names of the default section makes one read the value of the other |
| EntityStore.ListReadBack | SOURCE/Server/Cluster.cpp:230-246 | a written list is read back from the store without its leading empty elements, each as its separator lets it survive |
| ClusterProtocol.ClusterManager.Init | SOURCE/Server/Cluster.cpp:1511-1520 | only the own shard is active, and an election has been held |
| ClusterProtocol.ClusterManager.EarliestName | SOURCE/Server/Cluster.cpp:801-808 | the loop finds the name in the record with the least (start time, key) before the bound, or "" |
| ClusterProtocol.ClusterManager.FindMasterShard | SOURCE/Server/Cluster.cpp:798-828 | master name and flag change exactly when another name is elected |
| ClusterProtocol.ClusterManager.JoinedShard | SOURCE/Server/Cluster.cpp:672-703 | the whole new state of the step |
| ClusterProtocol.ClusterManager.LeftShard | SOURCE/Server/Cluster.cpp:1029-1051 | the whole new state of the step |
| ClusterProtocol.ClusterManager.JoinedOtherShard | SOURCE/Server/Cluster.cpp:830-895 | the whole new state of the step, including blank records inserted for unknown shards |
| ClusterProtocol.ClusterManager.LeftOtherShard | SOURCE/Server/Cluster.cpp:758-796 | the whole new state of the step: nothing for a player with a pending transfer |
| ClusterProtocol.ClusterManager.TransferFromOtherShard | SOURCE/Server/Cluster.cpp:1285-1306 | the transfer is queued last |
| ClusterProtocol.ClusterManager.FindToken | SOURCE/Server/Cluster.cpp:1243-1270 | the first entry with the token is taken out and returned, and its player's record removed |
| ClusterProtocol.ClusterManager.ShardRemoved | SOURCE/Server/Cluster.cpp:1160-1203 | the two loops over players leave exactly those not on the shard or with a pending transfer; then the shard goes and an election is held |
| ClusterProtocol.ClusterManager.NewShard | SOURCE/Server/Cluster.cpp:1213-1241 | a known shard is removed first; then a record with start time 0 is entered |
| ClusterProtocol.ClusterManager.ServerConfigurationReceived | SOURCE/Server/Cluster.cpp:897-930 | the update goes under the name held in the record, then an election is held |
| ClusterProtocol.ClusterManager.ShardPing | SOURCE/Server/Cluster.cpp:705-727 | only the time last seen of a known shard changes |
| ClusterProtocol.ClusterManager.RemoveExpired | SOURCE/Server/Cluster.cpp:1659-1688 | exactly the other shards last heard from before the (unsigned) expiry time are removed, in key order |
| ClusterSafety.PendingProtects | SOURCE/Server/Cluster.cpp:758-796 | while a transfer is pending a step removes the player if and only if the player leaves this node or presents a token queued for it |
| ClusterSafety.HandOverKeepsPlayer | SOURCE/Server/Cluster.cpp:758-796 | along any run without those two events neither departures nor shutdowns lose the player or its transfer |
| ClusterSafety.TokenStep | SOURCE/Server/Cluster.cpp:1243-1306 | each step changes the number of entries with a token by what it queues and hands out |
| ClusterSafety.TokensConserved | SOURCE/Server/Cluster.cpp:1243-1306 | over any run, queued plus initial entries with a token equal handed-out plus remaining ones |
| ClusterSafety.TokenEndsOldRecord | SOURCE/Server/Cluster.cpp:1243-1270 | presenting a token removes exactly the record of the player it belongs to, and succeeds exactly while one is queued |
| ClusterSafety.RemovedShardIsEmpty | SOURCE/Server/Cluster.cpp:1160-1203 | the stopped shard is inactive, only players with a pending transfer are still recorded on it, players elsewhere are untouched |
| ClusterSafety.KeyedKept | SOURCE/Server/Cluster.cpp:672-703 | along every run players are recorded under their own ids |
| ClusterSafety.OwnShardStays | SOURCE/Server/Cluster.cpp:1663-1688 | no run of delivered messages removes the node's own shard |
| ClusterSafety.JoinRecords | SOURCE/Server/Cluster.cpp:840-872 | a join records the player on the shard it names, wherever it was before, and changes no other record |
| ClusterSafety.RecordEndsIff | SOURCE/Server/Cluster.cpp:758-796 | exactly which steps end a recorded player's record; without a join it is otherwise unchanged |
| ClusterSafety.RecordedByJoin | SOURCE/Server/Cluster.cpp:672-703 | nobody is recorded but by a join |
| ClusterSafety.RecordedWhereLastJoined | SOURCE/Server/Cluster.cpp:830-895 | along every run a recorded player is recorded on the shard named by its last join |
| ClusterSafety.ShardRecords | SOURCE/Server/Cluster.cpp:897-930 | start, configuration, ping and stop of a shard change its own record alone, and how |
| ClusterSafety.TimesOutIff | SOURCE/Server/Cluster.cpp:1659-1688 | a shard times out if and only if it is another one, has been heard of, and not for a minute in unsigned arithmetic |
| ClusterSafety.QueueOrder | SOURCE/Server/Cluster.cpp:1243-1306 | transfers are queued last, and a token takes out the first entry that has it |
| MasterElection.SomeoneElected | SOURCE/Server/Cluster.cpp:798-808 | whenever some shard starts before the bound, one is elected |
| MasterElection.MasterIsEarliest | SOURCE/Server/Cluster.cpp:798-813 | after an election the master is the name of the shard with the least (start time, key) |
| MasterElection.TooFarAhead | SOURCE/Server/Cluster.cpp:801 | a shard that starts ten seconds or more ahead of the clock is no candidate |
| KeyOrder.LessAtDifference | SOURCE/Server/Cluster.cpp:802-803 | the order of shard names: the first difference decides, and a prefix comes first |
| MasterElection.FlagMatchesName | SOURCE/Server/Cluster.cpp:809-814 | along every run the flag holds if and only if the master's name is the node's own |
| MasterElection.InitialConsistent | SOURCE/Server/Cluster.cpp:1511-1520 | the flag is right after start-up if and only if the node has a name, and a new node elects itself |
| MasterElection.ExactlyOneMaster | SOURCE/Server/Cluster.cpp:798-828 | nodes with the same start times and proper records elect the same shard, each by its own clock, and exactly one takes itself for the master |
| MasterElection.FlagIffLeads | SOURCE/Server/Cluster.cpp:798-828 | a fully informed node takes itself for the master if and only if its shard was initialised before every other was launched |
| MasterElection.AgreementIff | SOURCE/Server/Cluster.cpp:897-930 | any number of fully informed nodes all elect a given shard if and only if that shard was initialised before every other was launched |
| MasterElection.AtMostOneMaster | SOURCE/Server/Cluster.cpp:798-828 | whatever the start times, at most one fully informed node takes itself for the master |
| MasterElection.TwoNodesAgreeIff | SOURCE/Server/Cluster.cpp:976-992 | two nodes that have sent each other their configurations agree if and only if one was initialised before the other was launched; if not, each elects the other and neither is master |
| MasterElection.ElectionSplits | SOURCE/Server/Cluster.cpp:1511-1520 | an ordinary start of two nodes after which no node is master |
| MasterElection.UnconfiguredElectedIff | SOURCE/Server/Cluster.cpp:1213-1241 | the elected record has start time 0 if and only if any record has, and then it is the one with the least key |
| MasterElection.UnconfiguredMasterIff | SOURCE/Server/Cluster.cpp:1213-1241 | with proper records, a new shard is master before its configuration arrives if and only if no other new shard has a smaller name |
| MasterElection.NewShardTakesOver | SOURCE/Server/Cluster.cpp:1225-1227 | a two-message run after which a shard that has not sent its configuration is master |
| MasterElection.NamesKeptIff | SOURCE/Server/Cluster.cpp:1243-1270 | a step keeps every record under its own name if and only if it uses only shards in the table |
| MasterElection.AlwaysNamedIff | SOURCE/Server/Cluster.cpp:1243-1270 | the records stay under their own names throughout a run if and only if every step of it uses only shards in the table |
| MasterElection.StartTimeIsLastAnnounced | SOURCE/Server/Cluster.cpp:897-930 | along every run with proper records the start time known of a shard is the last one announced |
| MasterElection.NamelessWins | SOURCE/Server/Cluster.cpp:798-814 | a record without a name wins every election against started shards, and then nobody is master |
| MasterElection.NamelessEndsIff | SOURCE/Server/Cluster.cpp:897-930 | a step ends a record without a name if and only if it is a stop, a new start or a timeout of its shard |
| MasterElection.NamelessUntilReplaced | SOURCE/Server/Cluster.cpp:897-930 | along every run such a record stays until the shard stops, starts anew or times out: its configurations do not repair it |
| MasterElection.HandOverFromStoppedShard | SOURCE/Server/Cluster.cpp:1252-1264 | an ordinary six-message run that leaves a node with a blank record and no master |
| CharacterCache.CharacterManager.GetPointerByID | SOURCE/Server/Character.cpp:1693-1703 | whole new state: a temporary entry's expiry is extended |
| CharacterCache.CharacterManager.LoadCharacter | SOURCE/Server/Character.cpp:1651-1683 | whole new state: a readable, uncached character is entered |
| CharacterCache.CharacterManager.RequestCharacter | SOURCE/Server/Character.cpp:1766-1789 | whole new state; found if and only if it is cached afterwards |
| CharacterCache.CharacterManager.SaveCharacter | SOURCE/Server/Character.cpp:1881-1898 | whole new state: a refused write has still extended the expiry |
| CharacterCache.CharacterManager.UnloadCharacter | SOURCE/Server/Character.cpp:1900-1911 | whole new state |
| CharacterCache.CharacterManager.ReloadCharacter | SOURCE/Server/Character.cpp:1646-1649 | whole new state: unloaded, then loaded if it can be read |
| CharacterCache.CharacterManager.AddExternalCharacter | SOURCE/Server/Character.cpp:1729-1740 | whole new state: an existing entry wins |
| CharacterCache.CharacterManager.RemoveSingleGarbage | SOURCE/Server/Character.cpp:1822-1858 | asks for another pass exactly when something was expired, and then one expired entry was dealt with |
| CharacterCache.CharacterManager.RemoveGarbageCharacters | SOURCE/Server/Character.cpp:1797-1820 | ends for any answers of the store, in the closed-form state `Garbage` |
| CharacterCache.CharacterManager.UnloadAllCharacters | SOURCE/Server/Character.cpp:1860-1879 | ends with an empty cache and every successful write in the store |
| CharacterCache.CollectedIsProgress | SOURCE/Server/Character.cpp:1840-1856 | one pass leaves one expired entry fewer even when the save fails, and does not change the final result |
| CharacterCache.GarbageExact | SOURCE/Server/Character.cpp:1797-1858 | afterwards nothing is expired; what went was expired and its changes are stored; everything else is untouched or was a failed save, now postponed |
| CharacterCache.SaveAllStep | SOURCE/Server/Character.cpp:1869-1879 | one pass of the shutdown loop does not change its final result |
| CharacterCache.PermanentStays | SOURCE/Server/Character.cpp:678-689 | a step ends a permanent stay if and only if it unloads, or reloads temporarily or without success |
| CharacterCache.RequestedPermanently | SOURCE/Server/Character.cpp:1766-1789 | a character requested permanently stays through every run of temporary requests, saves and garbage runs |
| CharacterCache.NothingLost | SOURCE/Server/Character.cpp:1840-1898 | without forced unloads of unsaved characters, the latest content is in the cache or the store, however many saves fail |
| CharacterCache.DurableIff | SOURCE/Server/Character.cpp:1860-1911 | a step keeps this if and only if it does not drop unsaved changes |
| CharacterCache.RequestSets | SOURCE/Server/Character.cpp:1766-1789 | what a request does to expiry and content, found or loaded, and that nothing else changes |
| CharacterCache.SaveStores | SOURCE/Server/Character.cpp:1881-1898 | a successful save stores the content and clears the changes; a failed one is a lookup |
| CharacterCache.UnloadAllStores | SOURCE/Server/Character.cpp:1869-1879 | unloading everything writes exactly the characters with changes whose write succeeds |
| CharacterCache.GarbageStores | SOURCE/Server/Character.cpp:1840-1856 | a garbage run writes exactly the expired characters with changes that can be written |
| ChatChannels.ChatChannelManager.HasSimulator | SOURCE/Server/ChatChannel.cpp:28-34 | the loop decides membership |
| ChatChannels.ChatChannelManager.GetChannelWithSimulatorID | SOURCE/Server/ChatChannel.cpp:156-163 | the lowest-numbered channel holding the simulator, or none if there is none |
| ChatChannels.ChatChannelManager.GetExistingChannel | SOURCE/Server/ChatChannel.cpp:165-172 | the lowest-numbered channel of that name, or none if there is none |
| ChatChannels.ChatChannelManager.CreateChannel | SOURCE/Server/ChatChannel.cpp:174-190 | a fresh ID and an empty channel under it |
| ChatChannels.ChatChannelManager.JoinChannel | SOURCE/Server/ChatChannel.cpp:79-120 | result code, returned name and whole new registry, for NULL arguments too |
| ChatChannels.ChatChannelManager.LeaveChannel | SOURCE/Server/ChatChannel.cpp:124-154 | the erase-while-iterating loop visits every channel once and leaves `Leave`; the code tells whether anything was left |
| ChatChannels.RegistryKept | SOURCE/Server/ChatChannel.cpp:79-154 | along every run: no empty channel, short distinct names, IDs below the next one, each simulator in at most one channel and once |
| ChatChannels.LeaveEverywhere | SOURCE/Server/ChatChannel.cpp:122-154 | leaving without a name removes the simulator everywhere and changes no other membership |
| ChatChannels.LeaveUndoesJoin | SOURCE/Server/ChatChannel.cpp:79-154 | joining and then leaving restores the registry, apart from the ID counter |
| ChatChannels.JoinChangesIff | SOURCE/Server/ChatChannel.cpp:79-120 | the registry changes if and only if the code says joined or created, and then the simulator was in no channel |
| ChatChannels.RefusedEarly | SOURCE/Server/ChatChannel.cpp:81-94 | NULL arguments, a name over ten characters and a simulator that is in a channel are refused, in this order |
| ChatChannels.PasswordDecides | SOURCE/Server/ChatChannel.cpp:97-107 | an existing channel is joined with its own password and no other; the newcomer is then its last member |
| ChatChannels.NewChannelIsOurs | SOURCE/Server/ChatChannel.cpp:108-116 | a new name makes a channel with the caller's password and the caller as only member |
| ChatChannels.LeaveEnds | SOURCE/Server/ChatChannel.cpp:122-154 | leaving ends the simulator's membership of the channels meant, and no other membership |
| ChatChannels.LeaveKeepsChannel | SOURCE/Server/ChatChannel.cpp:15-26 | what is left of a channel keeps name, password and the order of its members |
| AccountSlots.Account.GetFreeCharacterSlot | SOURCE/Server/Account.cpp:610-615 | the first free slot below the maximum, or -1 |
| AccountSlots.Account.CreateCharacter | SOURCE/Server/Account.cpp:1478-1499 | result and whole new state, with every refusal in order |
| AccountSlots.Account.RemoveCharacter | SOURCE/Server/Account.cpp:1903-1915 | exactly the first entry with the ID goes |
| AccountSlots.Account.DeleteCharacter | SOURCE/Server/Account.cpp:1711-1733 | the shifting loop in the array removes one slot and appends a free one |
| AccountSlots.Account.ExpandCharacterSlots | SOURCE/Server/Account.cpp:740-747 | one more slot, up to eight |
| AccountSlots.FreeIsNext | SOURCE/Server/Account.cpp:610-615 | in an agreeing account the free slot is the one behind the last character |
| AccountSlots.CreateAgreesIff | SOURCE/Server/Account.cpp:1655-1663 | creating keeps slots and cache in agreement if and only if it is refused or the store hands out an ID |
| AccountSlots.RefusedBecause | SOURCE/Server/Account.cpp:1482-1496 | the refusals of a creation, in order |
| AccountSlots.CreateTakesNext | SOURCE/Server/Account.cpp:1498-1499 | a new character takes the slot behind the last and the ID eight below the last one handed out |
| AccountSlots.UnansweredCreate | SOURCE/Server/Account.cpp:1498-1499 | one unanswered creation on a new account puts a character in the cache and in no slot |
| AccountSlots.DeleteAgrees | SOURCE/Server/Account.cpp:1711-1733 | deleting keeps the agreement and removes exactly that character, or changes nothing |
| AccountSlots.Run | SOURCE/Server/Account.cpp:1706-1733 | slots and cache agree along every run of create, delete and expand, with other accounts drawing IDs meanwhile |
| AccountSlots.DeleteUndoesCreate | SOURCE/Server/Account.cpp:1711-1733 | deleting the character just created restores slots and cache |
| AuctionBids.AuctionHouseItem.Bid | SOURCE/Server/AuctionHouse.cpp:228-255 | acceptance and the whole new bid book, with an earlier bid of the buyer erased |
| AuctionBids.BuyersDistinct | SOURCE/Server/AuctionHouse.cpp:240-246 | along every run, in any currency, no buyer has two bids |
| AuctionBids.IncreasingIff | SOURCE/Server/AuctionHouse.cpp:230-233 | copper stays strictly increasing if and only if the bid is not accepted on credits alone |
| AuctionBids.OthersStay | SOURCE/Server/AuctionHouse.cpp:230-255 | which offers are taken; a taken one stands last and the bids of all other buyers stay, in order |
| AuctionBids.CopperOnly | SOURCE/Server/AuctionHouse.cpp:228-255 | in one currency, along every run: strictly increasing, distinct buyers, and the last entry is the latest and highest offer accepted |
| AuctionBids.CreditsUndercut | SOURCE/Server/AuctionHouse.cpp:230-233 | a run of two bids after which the standing copper has fallen |
| UniqueSpawn.UniqueSpawnManager.GetPropIndex | SOURCE/Server/CreatureSpawner2.cpp:1666-1674 | the prop's index, listing it last if it is new |
| UniqueSpawn.UniqueSpawnManager.TestSpawn | SOURCE/Server/CreatureSpawner2.cpp:1696-1720 | the answer and the whole new table |
| UniqueSpawn.UniqueSpawnManager.ReRoll | SOURCE/Server/CreatureSpawner2.cpp:1722-1728 | the whole new table |
| UniqueSpawn.IndexNeverChanges | SOURCE/Server/CreatureSpawner2.cpp:1666-1674 | a prop keeps its index through every run |
| UniqueSpawn.IndexInjective | SOURCE/Server/CreatureSpawner2.cpp:1666-1674 | no two props share an index |
| UniqueSpawn.GoodRun | SOURCE/Server/CreatureSpawner2.cpp:1666-1720 | along every run the props are distinct and the chosen index is in range |
| UniqueSpawn.OnePointAlwaysPasses | SOURCE/Server/CreatureSpawner2.cpp:1698-1699 | a package with one point or none lets everybody through |
| UniqueSpawn.FirstQuestion | SOURCE/Server/CreatureSpawner2.cpp:1707-1719 | the first question rolls among the points and lists the asking prop first |
| UniqueSpawn.AtMostOnePasses | SOURCE/Server/CreatureSpawner2.cpp:1696-1720 | between two re-rolls at most one prop is ever let through |
| UniqueSpawn.ExactlyOnePasses | SOURCE/Server/CreatureSpawner2.cpp:1696-1720 | once all points have asked and the restart time has passed, exactly one prop is let through |
| UniqueSpawn.QuietAfterKill | SOURCE/Server/CreatureSpawner2.cpp:1676-1680 | after a kill no prop of the package, however often asked, is let through before the delay has passed |
| Spawner.SpawnTile.Visit | SOURCE/Server/CreatureSpawner2.cpp:298-361 | the body of the loop: the whole new tile, with every early exit |
| Spawner.SpawnTile.SpawnCreature | SOURCE/Server/CreatureSpawner2.cpp:345-361 | the end of a visit: no second spawn in an instance, one creature attached, or the spawner put off for good |
| Spawner.SpawnTile.RunProcessing | SOURCE/Server/CreatureSpawner2.cpp:277-363 | the release time is set and the whole new tile: every spawner visited once, in key order |
| Spawner.SpawnTile.NotifyKill | SOURCE/Server/CreatureSpawner2.cpp:1021-1047 | the whole new tile with the re-rolled package, and whether the instance script is to be told |
| Spawner.EachVisitedOnce | SOURCE/Server/CreatureSpawner2.cpp:289-362 | each spawner's new record is one visit applied to its own old record, with the uniqueness test answered when its turn comes |
| Spawner.CountFollowsIff | SOURCE/Server/CreatureSpawner2.cpp:107-112 | the 16-bit count follows the attached creatures if and only if kills are of attached ones |
| Spawner.Population | SOURCE/Server/CreatureSpawner2.cpp:317-318 | along every run the count is the number of attached creatures and never exceeds the point's limit |
| Spawner.NotDueBefore | SOURCE/Server/CreatureSpawner2.cpp:99-105 | after a spawn or a kill the spawner is not due before the respawn delay has passed, whatever happens meanwhile |
| Spawner.Pacing | SOURCE/Server/CreatureSpawner2.cpp:99-112 | two spawns, and a kill and a spawn, are at least the respawn delay apart |
| Spawner.PacedAfterRelease | SOURCE/Server/CreatureSpawner2.cpp:870-889 | a tile that may be released has let every delay pass, so leaving and returning cannot beat the timer |
| Spawner.RetryIn60Iff | SOURCE/Server/CreatureSpawner2.cpp:332-335 | outside an instance the retry after a failed uniqueness test is due in 60 seconds if and only if that is the respawn delay |
| Spawner.RetryIsLate | SOURCE/Server/CreatureSpawner2.cpp:99-105 | with the default delay it is due after 150 seconds |
| Spawner.SpawnsCounted | SOURCE/Server/CreatureSpawner2.cpp:107-112 | the spawn counter counts the spawns of the run |
| Spawner.OncePerInstance | SOURCE/Server/CreatureSpawner2.cpp:345-347 | in an instanced zone a spawner spawns at most once ever |
| Spawner.TileRunProjects | SOURCE/Server/CreatureSpawner2.cpp:277-363 | every run of a tile, of processing and kills, is for each of its spawners the run of that spawner's own history |
| Spawner.TilePopulation | SOURCE/Server/CreatureSpawner2.cpp:317-318 | along every run of a tile each spawner has as many creatures as it counts, within its limit |
| Spawner.TilePacing | SOURCE/Server/CreatureSpawner2.cpp:99-112 | along every run of a tile each spawner keeps the respawn delay, and in an instance spawns at most once |
| Spawner.ReleasedIsPaced | SOURCE/Server/CreatureSpawner2.cpp:870-889 | a releasable spawner of a tile has let the respawn delay pass since every spawn and kill in its history |
| Spawner.WhichDelay | SOURCE/Server/CreatureSpawner2.cpp:114-128 | which of point, package and default decides the respawn delay |
| Spawner.VisitSpawnsIff | SOURCE/Server/CreatureSpawner2.cpp:298-361 | exactly when a visit spawns, and that the spawn is attached, counted and delays the next |
| Spawner.VisitPutsOffIff | SOURCE/Server/CreatureSpawner2.cpp:304-361 | exactly when a visit puts a spawner off for good |
| Spawner.KillForgets | SOURCE/Server/CreatureSpawner2.cpp:1029-1033 | a kill delays, lowers the count and forgets one occurrence of the victim |
| Spawner.UniqueGate | SOURCE/Server/CreatureSpawner2.cpp:326-340 | a spawner of a unique package spawns only when its prop is let through, and only that package's entry is touched |
| TileSweep.HasTileCoord | SOURCE/Server/CreatureSpawner2.cpp:1013-1019 | the loop decides membership |
| TileSweep.ScanActivePlayerTiles | SOURCE/Server/CreatureSpawner2.cpp:1049-1061 | without duplicates, exactly the union of the blocks around all players |
| TileSweep.SpawnManager.RunGarbageCheck | SOURCE/Server/CreatureSpawner2.cpp:1074-1139 | nothing before the check is due; then the erasing loop leaves `Swept` and sets the next check |
| TileSweep.SpawnManager.RemoveAllAttachedCreature | SOURCE/Server/CreatureSpawner2.cpp:707-714 | exactly the attached creatures leave the instance |
| TileSweep.SpawnManager.StandsInActive | SOURCE/Server/CreatureSpawner2.cpp:1112-1122 | found if and only if an attached creature stands in an active tile |
| TileSweep.SweepExact | SOURCE/Server/CreatureSpawner2.cpp:1074-1139 | by the state before the sweep: erased are exactly the tiles past release, without a finite pending spawn, inactive, and with no creature in an active tile; creatures go exactly with their tile |
| TileSweep.OwnedAlways | SOURCE/Server/Instance.cpp:735-742 | along every run of spawns, removals, moves and garbage checks no creature belongs to two tiles, because IDs come from one counter |
| TileSweep.SweepExactAlways | SOURCE/Server/CreatureSpawner2.cpp:1074-1139 | after every run from an empty list of tiles, a garbage check erases exactly the tiles that do not qualify to stay |
| TileSweep.TileCovers | SOURCE/Server/CreatureSpawner2.cpp:1054-1055 | which coordinates belong to a tile: 560 units each, truncated towards zero |
| TileSweep.LeavesIff | SOURCE/Server/CreatureSpawner2.cpp:874-889 | a tile is erased if and only if its release time has come, every spawner is put off for good or due, it is not active, and none of its creatures stands in an active tile |
| TileSweep.FilterAppend | SOURCE/Server/CreatureSpawner2.cpp:1082-1137 | tiles are judged one by one and those that stay keep their order |
| TileSweep.PendingSpawnKeeps | SOURCE/Server/CreatureSpawner2.cpp:870-887 | a tile with a pending spawn stays until the spawn is due |
| TileSweep.ErasedIsReleasable | SOURCE/Server/CreatureSpawner2.cpp:879-887 | every spawner of an erased tile was put off for good or due |
| TileSweep.ErasedIsPaced | SOURCE/Server/CreatureSpawner2.cpp:870-873 | when a tile is erased the respawn delay has passed since every spawn and kill of each of its spawners, so leaving cannot bring a boss back early |
| TileSweep.KeptHadReason | SOURCE/Server/CreatureSpawner2.cpp:1074-1139 | a tile that stays had a reason to, even when creatures are shared |
| SpawnTable.GetRandomSpawn | SOURCE/Server/CreatureSpawner2.cpp:1250-1308 | an override wins without a roll; otherwise a roll from the range of the point's side, and the entry whose rolls contain it, or -1 if there is none |
| SpawnTable.PicksOne | SOURCE/Server/CreatureSpawner2.cpp:1290-1307 | no roll belongs to two entries |
| SpawnTable.PicksSomeIff | SOURCE/Server/CreatureSpawner2.cpp:1290-1307 | a roll belongs to some entry if and only if it lies between 1 and the sum of shares |
| SpawnTable.SharesExact | SOURCE/Server/CreatureSpawner2.cpp:1260-1267 | of the rolls from 1 to the sum, exactly `share` select each entry |
| SpawnTable.DivideAtBoundary | SOURCE/Server/CreatureSpawner2.cpp:1270-1286 | with the threshold at a boundary the low side selects only earlier entries and the high side only later ones |
| SpawnTable.SidesApartIff | SOURCE/Server/CreatureSpawner2.cpp:1270-1286 | for any shares, threshold and announced sum the two sides share no entry if and only if the threshold is a boundary or one side has no roll that picks anything |
| SpawnTable.OverrideIsFirst | SOURCE/Server/CreatureSpawner2.cpp:1255-1258 | the first override for the point counts |
| SpawnTable.SideRolls | SOURCE/Server/CreatureSpawner2.cpp:1268-1286 | which coordinate decides the side, and the rolls of either side |
| Crafting.SortInputs | SOURCE/Server/Crafting.cpp:392-395 | some permutation of the inputs, and one that the comparator accepts as sorted if every definition is there |
| Crafting.CheckCondition | SOURCE/Server/Crafting.cpp:234-324 | the loop with its splits, index tests, operations and early returns, against a scan of the verdicts of the conditions |
| Crafting.PassedIff | SOURCE/Server/Crafting.cpp:234-324 | conditions pass if and only if each is well-formed, known and holds |
| Crafting.CrashedIff | SOURCE/Server/Crafting.cpp:234-324 | the check faults if and only if some condition faults and none before it fails |
| Crafting.RequireIdRule | SOURCE/Server/Crafting.cpp:251-261 | the item must be right, and the stack too unless the count is negative |
| Crafting.RequireIdOnlyRule | SOURCE/Server/Crafting.cpp:251-261 | a count left out demands an empty stack |
| Crafting.RequireIdxMultRule | SOURCE/Server/Crafting.cpp:262-278 | the item must be right and its stack the multiple of the stack of another input that exists |
| Crafting.RequireIdMultRule | SOURCE/Server/Crafting.cpp:279-289 | the item must be right and its stack a multiple of the number; zero faults only then |
| Crafting.ItemTypeRule | SOURCE/Server/Crafting.cpp:290-296 | the item must have the type; a missing definition faults |
| Crafting.QualityRule | SOURCE/Server/Crafting.cpp:297-303 | the item must have the quality; a missing definition faults |
| Crafting.CmpRule | SOURCE/Server/Crafting.cpp:304-314 | an unknown property or one of -1 fails, a missing definition faults, otherwise the comparison decides |
| Crafting.CmpOnlyRule | SOURCE/Server/Crafting.cpp:309 | a comparator left out faults once the property is known |
| Crafting.PropertyFields | SOURCE/Server/Crafting.cpp:409-420 | the six property names and the fields they stand for |
| Crafting.Comparators | SOURCE/Server/Crafting.cpp:397-434 | the six symbols and the relations they stand for; any other symbol never holds |
| Crafting.UnknownRule | SOURCE/Server/Crafting.cpp:315-318 | an unknown operation is skipped, which keeps the recipe from passing |
| Crafting.AtoiReads | SOURCE/Server/Crafting.cpp:180-186 | white space, sign and digits of a parameter are read, and what follows is ignored |
| Crafting.CraftManager.GetRecipe | SOURCE/Server/Crafting.cpp:197-210 | the first recipe of that input count whose conditions pass on the sorted inputs |
| Crafting.CraftManager.GenerateOutputs | SOURCE/Server/Crafting.cpp:344-390 | the products of all actions, in order, behind what was there |
| Crafting.CraftManager.RunRecipe | SOURCE/Server/Crafting.cpp:327-342 | result and outputs for a given or a looked-up recipe |
| Crafting.MatchedIsFirst | SOURCE/Server/Crafting.cpp:200-209 | the first recipe of the right input count whose conditions do not just fail decides |
| Crafting.NoMatchIff | SOURCE/Server/Crafting.cpp:200-210 | nothing matches if and only if no recipe decides |
| Crafting.GiveIdAction | SOURCE/Server/Crafting.cpp:352-359 | one stack of the item, of at least one |
| Crafting.GiveIdxMultAction | SOURCE/Server/Crafting.cpp:360-371 | as many as an input has, times the multiplier, or nothing without that input |
| Crafting.GiveIdxDivAction | SOURCE/Server/Crafting.cpp:372-384 | how often the divisor fits in the stack of an input, or nothing if it does not fit |
| Crafting.OutputsAppend | SOURCE/Server/Crafting.cpp:346-390 | actions give their outputs one after the other |
| Crafting.SortedAscends | SOURCE/Server/Crafting.cpp:114-130 | sorted inputs ascend by type and then by ID |
| Crafting.ArrangementUnique | SOURCE/Server/Crafting.cpp:114-130 | sorted arrangements of the same tie-free inputs are equal |
| Crafting.OneArrangementIff | SOURCE/Server/Crafting.cpp:114-130 | the sorted order is determined if and only if equal (type, ID) means equal inputs |
| Crafting.OrderIndependent | SOURCE/Server/Crafting.cpp:197-210 | every permutation of inputs, of which those of equal (type, ID) differ at most in their CCSID, gives the same recipe, result and outputs |
| Crafting.OrderIndependentIff | SOURCE/Server/Crafting.cpp:114-130 | crafting is independent of the order for all recipes if and only if inputs of equal (type, ID) have equal ID, stack and definition |
| Crafting.TiesMatter | SOURCE/Server/Crafting.cpp:114-130 | two stacks of one item for which the library's order decides whether a recipe matches |
| FunctionList.SplitFunctionList | SOURCE/Server/Ability2.cpp:325-349 | the loop with its nesting counter yields the pieces between top-level commas |
| FunctionList.CutRejoins | SOURCE/Server/Ability2.cpp:325-349 | joining the pieces rebuilds the input up to a trailing top-level comma |
| FunctionList.RejoinIff | SOURCE/Server/Ability2.cpp:325-349 | nothing is lost if and only if the input does not end in a top-level comma, and then only that comma |
| FunctionList.CutOnlyAtTop | SOURCE/Server/Ability2.cpp:335-341 | no piece contains a top-level comma and every piece but the last closes what it opens |
| FunctionList.CutOfJoin | SOURCE/Server/Ability2.cpp:325-349 | any list of such pieces is recovered from its join |
| FunctionList.BalancedPieces | SOURCE/Server/Ability2.cpp:325-349 | if the nesting of the input never goes negative and ends at zero, so does that of every piece |
| FunctionList.LevelIsOpen | SOURCE/Server/Ability2.cpp:333-336 | the nesting counter is the number of opening parentheses and braces less that of closing ones |
| FunctionList.CallsComeApart | SOURCE/Server/Ability2.cpp:317-324 | a list of calls, whatever commas and nested brackets their arguments contain, comes apart into exactly the calls |
| FunctionList.TwoCalls | SOURCE/Server/Ability2.cpp:333-341 | commas are kept inside parentheses and inside braces |
| ImplicitActions.AbilityCalculator.RegisterTargetImplicitActions | SOURCE/Server/Ability2.cpp:3850-3876 | queues the target's actions for the event, in order, or nothing while implicit actions run |
| ImplicitActions.AbilityCalculator.ApplyParryChance | SOURCE/Server/Ability2.cpp:3471-3499 | the attack is parried exactly for a reactive target and a low enough roll; what that parry provokes is queued, and nothing else |
| ImplicitActions.AbilityCalculator.DoMeleeDamage | SOURCE/Server/Ability2.cpp:2915-2929 | whatever the rolls, the queue grows by what the parries of the attack provoke |
| ImplicitActions.AbilityCalculator.ActivateImplicit | SOURCE/Server/Ability2.cpp:1873-1935 | one retaliation is performed, and the queue does not grow while the flag is set |
| ImplicitActions.AbilityCalculator.RunImplicitActions | SOURCE/Server/Ability2.cpp:3878-3903 | whatever the rolls, each queued parry is answered once and in order, nothing is queued meanwhile, and the calculator ends idle |
| ImplicitActions.AbilityCalculator.ActivateAbility | SOURCE/Server/Ability2.cpp:1698-1822 | the queue grows by exactly what the parries of all attacks provoke, also of abilities activated in the middle by a buff that ends (SOURCE/Server/Creature.cpp:2113-2121); without such, only the targets parry and the source is answered |
| ImplicitActions.AbilityCalculator.CallAbility | SOURCE/Server/Instance.cpp:3689-3709 | what is performed is what was left in the queue and then what every parry of this ability and of those activated on the way provoked, in order |
| ImplicitActions.ParryIsAnswered | SOURCE/Server/Ability2.cpp:3886-3900 | a parry is answered by every ability the victim has registered for parries, in order and once each, by the victim against the attacker for the parried damage |
| ImplicitActions.TriggeredExact | SOURCE/Server/Ability2.cpp:3860-3875 | what an event queues is exactly the entries registered for it, at rising positions, each with its ability |
| ImplicitActions.ParriesPerformed | SOURCE/Server/Ability2.cpp:3886-3900 | a queue of parries is performed action by action, source and target exchanged |
| ImplicitActions.OthersNotPerformed | SOURCE/Server/Ability2.cpp:3889-3899 | a queued action of another event is dropped |
| ImplicitActions.TriggeredAnswers | SOURCE/Server/Ability2.cpp:3859-3875 | each queued action is one the parrying creature registered for parries, against the attacker, with the parried damage |
| ImplicitActions.RetaliationsAppend | SOURCE/Server/Ability2.cpp:3886-3900 | retaliations keep the order of the queue |
| WireCodec.PutByte | SOURCE/Server/ByteBuffer.cpp:77-81 | the low byte, at the position and nowhere else |
| WireCodec.PutShort | SOURCE/Server/ByteBuffer.cpp:89-94 | two bytes, high byte first, and nothing else |
| WireCodec.PutInteger | SOURCE/Server/ByteBuffer.cpp:110-122 | four bytes, high byte first, and nothing else |
| WireCodec.PutStringUTF | SOURCE/Server/ByteBuffer.cpp:164-184 | short or long header and the text, and nothing else |
| WireCodec.GetByte | SOURCE/Server/ByteBuffer.cpp:83-87 | the byte and the next position |
| WireCodec.GetShort | SOURCE/Server/ByteBuffer.cpp:103-108 | the unsigned short and the next position |
| WireCodec.GetInteger | SOURCE/Server/ByteBuffer.cpp:131-136 | the signed integer and the next position |
| WireCodec.GetStringUTF | SOURCE/Server/ByteBuffer.cpp:195-212 | as much text as fits, terminated, and the next position whatever fits |
| WireCodec.RequiredIsSize | SOURCE/Server/ByteBuffer.cpp:186-193 | the announced sizes are the sizes written |
| WireCodec.NumbersBigEndian | SOURCE/Server/ByteBuffer.cpp:77-122 | numbers are written most significant byte first, modulo their width |
| WireCodec.TextHeader | SOURCE/Server/ByteBuffer.cpp:164-184 | the two forms of the header of a text, which follows unchanged |
| WireCodec.RecoveredIs | SOURCE/Server/ByteBuffer.cpp:195-212 | what a reader gets: unsigned bytes and shorts, signed integers, and the whole text exactly if the buffer is longer |
| WireCodec.WroteNext | SOURCE/Server/ByteBuffer.cpp:164-184 | writing one piece behind another writes their concatenation |
| WireCodec.WrittenHolds | SOURCE/Server/ByteBuffer.cpp:77-136 | what was written is there to be read, and stays while later pieces are written behind it |
| WireCodec.FieldRoundTrip | SOURCE/Server/ByteBuffer.cpp:77-212 | one field is recovered (bytes and shorts modulo their width, strings up to the buffer) and the reader lands on the next field |
| WireCodec.StringLandsIff | SOURCE/Server/ByteBuffer.cpp:195-212 | the reader lands on the next field if and only if the string has at most 65535 bytes |
| WireCodec.MessageRoundTrip | SOURCE/Server/ByteBuffer.cpp:77-212 | every message of such fields is read back field by field, each from where the one before it ended, and the total advance is the bytes written and announced |
| WireCodec.PutMessage | SOURCE/Server/Cluster.cpp:1205-1211 | consecutive Put calls, each behind the one before it, write exactly the message and end behind it |
| WireCodec.GetMessage | SOURCE/Server/ByteBuffer.cpp:83-212 | consecutive Get calls recover every field of a written message and end behind it |
| WireCodec.WrittenReadsBack | SOURCE/Server/ByteBuffer.cpp:77-212 | what a sequence of Put calls writes, in whatever buffer, the Get calls can read |

## Left out

- The key store's server, JSON, sockets, logging, scheduling, locks, and every send or broadcast: messages are atomic steps and sends have no effect on the node.
- The player count, ping, addresses and time zone of a shard record; `GetActivePlayer`, `SimTransfer`, `ConfirmTransfer`, sessions and `PreShutdown`.
- MasterElection.ExactlyOneMaster: agreement of the nodes' tables is a hypothesis; `MasterElection.AgreementIff` covers the tables that differ in each node's own entry.
- ListCodec.ParsePrint, ListCodec.RoundTripIff: for a separator that contains a backslash, or a comma among other characters, which elements survive is not put in closed form; no caller passes one.
- CharacterCache.CharacterManager.LoadCharacter: the defaults and hooks run on a loaded character are not modelled; its content is the stored one.
- The server clock and the platform clock are one clock in `Timeouts`, and the clock stands still during one garbage run of the character cache.
- `Sections`, `Keys`, `Exists` and `RemoveEntity` of the entity store, and names cut at a NUL by the `%s` formatting of keys.
- Text.Split: an empty delimiter, which no caller passes, makes the source throw at the end of the string.
- Crafting.SortInputs: the library sort is stood for by an insertion sort; with a missing definition the comparator is no ordering and `std::sort` is undefined, for which the model takes any permutation.
- Crafting.GetRecipe, Crafting.GenerateOutputs: products of stacks and multipliers, and numbers in rules, are unbounded; the source's `int` can overflow.
- The content of a character, of an item and of an entity is a string or a few integers; derived data is not modelled.
- Spawner: what `SpawnCreature` builds (appearance, flags, elite creatures), `TriggerSpawn`, `UpdateSpawnPoint` and loyalty links; creating a creature gives an arbitrary ID or fails.
- Spawner.SpawnTile.NotifyKill: the spawner is named by its prop in the tile, not reached through the creature's pointer to it.
- A delay times 1000 fits an `int`, and the clock is below 2^63; the 64-bit sums and the 16-bit count wrap as in the source.
- TileSweep.SweepExact: assumes that no creature is attached to two tiles, which `TileSweep.OwnedAlways` shows while the 32-bit counter of creature IDs does not wrap; `TileSweep.KeptHadReason` needs no assumption.
- ImplicitActions: damage formulas, critical hits, orbs and the effects of functions other than melee damage, which do not touch the queue unless they end a buff; an ability's refusals before its first target, and targets it skips, appear as a shorter list of targets, and abilities activate each other to a finite depth.
- SpawnTable.GetRandomSpawn: nothing is stated of a draw from an empty range, which the random library leaves undefined.
- `CompleteAuction`, `ExpireItem` and the persistence of bids.
- Name validation and the Sage permission enter account creation only as outcomes.
- Put and get of floats, the class `BinaryBuffer`, and strings with an embedded NUL, which `strlen` cuts short.
