# Verified model of the game server's algorithms

This project models the self-contained algorithms and state machines of an OpenTibia game server in Dafny and
proves what they promise. Each module follows one part of the program; what the program changes step by step is
a class or a loop here too, proved against functions and relations whose own properties are lemmas.
`dafny verify dfyconfig.toml` checks everything.

- `NodeFormat`, `BitMask`, `FileLoader`: the node file format. `NodeFormat` says which bytes are a file, as a
  reference parser and as a layout, and proves the two equal; `FileLoader` is the loader with its three-slot
  block cache, its iterative parser that steps back a byte, and its in-place unescaper.
- `Container`, `ContainerIterator`, `Depot`: containers in containers with totals kept up their chain of parents,
  the breadth-first iterator over them, and the queries that keep them free of cycles and within a depot's limit.
  Weights are real numbers.
- `WalkCache`: the window of flags around a creature that is shifted in place at each step.
- `DecayWheel`: the timing wheel of decaying items.
- `Trade`: the trade between two players, with the references that it takes and gives back.
- `Money`: counting, taking and giving money in nested contents.
- `StackMove`: moving items and stacks between containers of fixed size.
- `Conditions`: what the next three share. `DamageList`: splitting a damage amount into rounds. The two floats compared
  are exact quotients here.
- `ConditionStream`: saving and loading conditions. `ConditionEngine`: conditions and their effects over time.
- `Connections`: the close protocol of a connection. `Dispatchers`: the dispatcher's queue with its condition variable.
  Both are state machines over the steps of all threads.
- `CombatAreas`: areas of effect as matrices, and their rotations, mirror images and cones.

Where the program does not do what one would expect, the code is followed and the exact condition proved:

- A node's type byte is escaped when written and read raw (`RoundTripExact`, `StartTypeIsLost`).
- `updateMapCache` skips absent tiles and leaves old flags there, and the handlers of updates and removals look at
  too few properties of an item type, and a creature that disappears is never asked about (`JumpTo`, `OnTileChange`,
  `AskedOrTheSame`, `StaleAfterTeleport`, `StaleAfterRemoval`).
- Rounding on the decay wheel can wrap, and an item then fires one turn early (`LongDurationError`, `EarlyFiring`).
- The default start of a damage list overshoots the amount above 760, except at 780 (`DefaultStartExact`).
- A container without a maximum size counts as full, since its test returns the number 255, and so takes nothing that
  is put wherever (`ContainerQueryAdd`).
- A full container can be let take more than its capacity, and an overfull one can lose what is put in
  (`EffectExact`, `LossExample`, `OverfullExample`).
- `removeMoney` does not look whether an item could be removed, and change is short without a coin of worth 1
  (`RemoveMoney`, `RestExact`).
- After a script refuses the exchange both players have accepted, and only closing leads out (`RefusedIsStuck`,
  `StaysRefused`).
- The dispatcher's shutdown notifies nobody (`ExitExact`, `ShutdownWhileIdle`, `WakeUpEnds`).
- The connection manager's shutdown can leave a closing connection waiting for ever (`CanCloseExact`,
  `ShutdownCanStick`). Its limit of 100 waiting writes is never reached (`CloseProtocol`).
- The centre of a mirrored or flipped area that is not square is computed with the wrong side (`MirrorExact`,
  `FlipExact`).

## Model

| member | source | states |
|---|---|---|
| `NodeFormat.EscapeRoundTrip` | src/fileloader.h:124-157 | Escaping any bytes gives complete escape pairs with no bare start or end byte, and unescaping gives the bytes back. |
| `NodeFormat.ParseOneSound` | src/fileloader.cpp:155-257 | A node accepted at a position is laid out there byte for byte, its escape pairs complete, and it ends where the parser stopped; children lie inside it one after the other. |
| `NodeFormat.ParseSiblingsSound` | src/fileloader.cpp:155-257 | The same for a run of siblings: their spans follow each other without gap or overlap up to the end found. |
| `NodeFormat.ParseOneComplete` | src/fileloader.cpp:155-257 | Every well-formed node laid out in the bytes is found, whatever follows it. |
| `NodeFormat.ParseSiblingsComplete` | src/fileloader.cpp:155-257 | Every run of well-formed siblings followed by the end of the file or a NODE_END is found as a whole. |
| `NodeFormat.ParseFileExact` | src/fileloader.cpp:97-152 | The accepted language, both ways: opening yields these trees if and only if the bytes are the version word, the layout of these well-formed trees, and then nothing or a NODE_END. |
| `NodeFormat.EncodeNode` | src/fileloader.cpp:309-329 | What startNode, setProps, the children and endNode write for a safe tree is the layout of a well-formed tree that decodes to the one written. |
| `NodeFormat.WrittenBytes` | src/fileloader.cpp:309-329 | The bytes of a small file, one by one: the version, the marks, the types and the escapes in their order. |
| `NodeFormat.UniqueSplit` | src/fileloader.cpp:155-257 | Two ways of splitting the same bytes into escaped properties and what follows agree. |
| `NodeFormat.OnlySafeNode` | src/fileloader.cpp:318-323 | If some well-formed tree with the bytes written for a tree decodes to it, its type bytes are safe. |
| `NodeFormat.RoundTripExact` | src/fileloader.cpp:309-329 | A forest written and read back comes back as it was if and only if every type byte is below 0xFD, or is 0xFD in front of properties that start with escape bytes and then an ordinary byte. |
| `NodeFormat.StartTypeIsLost` | src/fileloader.cpp:318-323 | A concrete tree with a type byte of 0xFE is not read back, because the type is escaped on writing and read raw. |
| `BitMask.AndNotBounds` | src/fileloader.cpp:520-537 | Clearing the bits of any mask lowers a number by at most the mask, power of two or not. |
| `FileLoader.CacheSizeInRange` | src/fileloader.cpp:122-152 | The cache size computed from any file size is positive and small enough for the block arithmetic. |
| `FileLoader.OddCacheSize` | src/fileloader.cpp:122-152 | A file size for which the cache size is 24576, which is no power of two. |
| `FileLoader.BlockCovers` | src/fileloader.cpp:520-537 | The block base computed with the mask lies at most one cache size before the position, for every cache size, so that the block holds the byte asked for. |
| `FileLoader.FileLoader.LoadCacheBlock` | src/fileloader.cpp:539-594 | A slot then holds the block of the position, whichever block was given up for it, every other slot is as it was, and every loaded slot still agrees with the file. |
| `FileLoader.FileLoader.ChooseSlot` | src/fileloader.cpp:541-564 | The slot given up is the first that is free, else the first that begins more than two blocks away, else the first of all. |
| `FileLoader.FileLoader.GetCacheBlock` | src/fileloader.cpp:520-537 | The slot returned holds the byte at the position asked for; if one held it already, nothing is read and no slot changes. |
| `FileLoader.FileLoader.ReadByte` | src/fileloader.cpp:358-395 | Succeeds exactly before the end of the file, and then returns the byte at the logical position and moves on by one, with or without cache. |
| `FileLoader.FileLoader.SafeSeek` | src/fileloader.cpp:467-489 | The logical position becomes the one given, whichever slot now holds it. |
| `FileLoader.FileLoader.SafeTell` | src/fileloader.cpp:491-518 | Returns the logical position minus one. |
| `FileLoader.FileLoader.ReadBytes` | src/fileloader.cpp:397-448 | Copies the bytes of the file from the position given, across cache blocks; without a cache it fails exactly if the file ends before. Every round of the loop across blocks progresses. |
| `FileLoader.FileLoader.CopyFromBlock` | src/fileloader.cpp:397-423 | One round: it copies what the block holds, and gets nowhere exactly when nothing is left to copy or the position is the end of the file, where the source then loops for ever. |
| `FileLoader.FileLoader.Replay` | src/fileloader.cpp:358-594 | Any sequence of seeks, tells and reads inside the file gets the answers of the flat file: eviction never shows. |
| `FileLoader.FileLoader.ParseNode` | src/fileloader.cpp:155-257 | On arbitrary bytes it terminates, although it steps back one byte, and succeeds exactly when the reference parser does, with the same tree and the same end. |
| `FileLoader.FileLoader.OpenRead` | src/fileloader.cpp:97-152 | Opening a file for reading, with caching or without, succeeds exactly for the accepted language and builds its trees. |
| `FileLoader.FileLoader.UnescapeBuffer` | src/fileloader.cpp:275-293 | Unescaping in place leaves the plain properties at the front of the buffer. |
| `FileLoader.FileLoader.GetProps` | src/fileloader.cpp:259-294 | The plain properties of a parsed node, read through the cache and unescaped in place. |
| `FileLoader.FileWriter.WriteData` | src/fileloader.h:124-157 | Appends the bytes, each special one behind an escape byte when asked to. |
| `FileLoader.FileWriter.WriteTree` | src/fileloader.cpp:309-329 | The calls for a tree append the bytes of the format and nothing else. |
| `FileLoader.SaveAndLoad` | src/fileloader.cpp:259-329 | A safe forest whose escaped properties have at most 2048 bytes a node, which is what the buffer holds after growing once, written, opened through the block cache or without it, walked and unescaped in place, comes back as it was. |
| `Container.TotalWeightIsNestedWeight` | src/container.cpp:121-131 | In a forest whose totals are kept, a container's weight is the weight of everything inside it at any depth, each stack weighing as many pieces as it has, and at least one. |
| `Container.Thing.UpdateItemWeight` | src/container.cpp:121-126 | The container and every ancestor that is a container, and no other, change their total by the difference. |
| `Container.Thing.AddThing` | src/container.cpp:467-504 | Puts the item in front and adjusts every ancestor by its weight; at an index of the maximum size or more, or, where there is none, beyond what is there or 254, nothing happens. |
| `Container.Thing.InternalAddThing` | src/container.cpp:762-789 | Puts the item in front, whatever its index, and adjusts every ancestor by its weight. |
| `Container.Thing.UnserializeItem` | src/container.cpp:92-119 | Loading a child item appends it and keeps all totals. |
| `Container.Thing.UpdateThing` | src/container.cpp:506-541 | A change of kind or count shifts every ancestor by the change of weight. |
| `Container.Thing.ReplaceThing` | src/container.cpp:543-589 | One item takes the place of another; every ancestor shifts by the difference. |
| `Container.Thing.RemoveThing` | src/container.cpp:591-652 | Taking part of a stack or the whole item shifts every ancestor by what is gone; an item that is elsewhere changes nothing. |
| `Container.Thing.PartWeighs` | src/item.cpp:767-773 | Pieces taken off a stack, down to the last but one, weigh the same each. |
| `ContainerIterator.Advance` | src/container.cpp:881-902 | A step of the iterator visits an item not visited before and keeps the queue exact. |
| `ContainerIterator.EndsInLevelOrder` | src/container.cpp:881-902 | When the queue is empty everything inside was visited, each thing once, in level order. |
| `ContainerIterator.LevelsComeFirst` | src/container.cpp:881-902 | A sequence in level order begins with the levels up to any depth, one after the other. |
| `ContainerIterator.Traverse` | src/container.cpp:797-902 | The iterator terminates and yields each strict descendant exactly once in level order. |
| `ContainerIterator.GetItemHoldingCount` | src/container.cpp:173-180 | The count is the number of things inside at any depth. |
| `ContainerIterator.IsHoldingItem` | src/container.cpp:182-191 | True exactly for descendants. |
| `Depot.ContainerQueryAdd` | src/container.cpp:266-303 | The whole answer: the first objection there is, which is a cylinder that is no item, one that cannot be picked up, the container itself or one of its ancestors, no room while no index is given and nothing lifts the limit; else the answer of the outermost cylinder, if that is another, or NoError. So a pickupable item is accepted by a container that lies nowhere and has room. |
| `Depot.GetTopParent` | src/thing.cpp:27-44 | The last thing above, or the thing itself, that has a parent; of a plain item directly on an outermost cylinder, that cylinder. |
| `Depot.DepotQueryAdd` | src/depot.cpp:41-67 | DepotIsFull if and only if the count exceeds the limit, and otherwise the answer of a container; an item accepted without FLAG_NOLIMIT leaves room for itself and everything inside it, wherever it lies now. |
| `Depot.HoldsExact` | src/depot.cpp:41-67 | What is counted: a plain item from nowhere needs a free place, a container as many as it and all inside it, a part of a stack that lies in the depot one more, a whole one none. |
| `Depot.MoveIfAllowed` | src/game.cpp:1451-1562 | Query with the item still in its old place, removal from there, addition: the answer is the whole answer above, an item refused stays where it is and one accepted ends in front in the container; no cycle arises, all totals stay right, and without FLAG_NOLIMIT the container asked and the outermost one above it are within their limits, if they are depots. |
| `Depot.Transfer` | src/game.cpp:1532-1562 | Removal and addition: the item ends up in front in the container, or nowhere if the index lies beyond what that then can hold, and everything else keeps its place; nothing comes to lie in a thing but the item and what it holds. |
| `Depot.Run` | src/container.cpp:121-652 | Over any sequence of moves, loads, replacements, changes and removals nothing comes to lie inside itself, and the weight kept for each thing is that of everything nested in it, computed afresh. |
| `WalkCache.Creature.UpdateTileCache` | src/creature.cpp:391-403 | Asks one tile and changes that flag only; offsets outside the window change nothing. |
| `WalkCache.Creature.RowsNorthward` | src/creature.cpp:554-566 | After a step north the rows agree with the tiles as seen from the new row, and the row that came in is fresh. |
| `WalkCache.Creature.ColumnsEastward` | src/creature.cpp:581-602 | After the columns too were shifted, in the trimmed range of rows only, every flag is right in the old or the new world. |
| `WalkCache.Creature.StepFrom` | src/creature.cpp:548-633 | After a step of one tile in any of eight directions the cache agrees with asking every tile. |
| `WalkCache.Creature.OtherCreatureMoved` | src/creature.cpp:635-643 | Another creature's move refreshes both places. |
| `WalkCache.Creature.OnTileChange` | src/creature.cpp:450-483 | The cache stays in sync after any addition, any creature that appears, the removal of an item whose type blocks or is ground, and an update from or to a type that blocks; nothing is asked after any other removal or update or when a creature disappears. It is in sync if and only if the tile was asked, or is not looked at, or would answer as before. |
| `WalkCache.AskedOrTheSame` | src/creature.cpp:450-483 | For tiles with contents: a change is not asked about and yet alters what can block, whether there is ground or the creatures there, if and only if it is a creature that disappears. |
| `WalkCache.Creature.JumpTo` | src/creature.cpp:625-633 | After a teleport, a change of floor or of resistance the cache is in sync if and only if no flag that was set is one of a place without a tile now. |
| `WalkCache.Creature.Handle` | src/creature.cpp:450-644 | Each event leaves the cache in sync if and only if it is harmless: steps and moves of others always are, the others under the two conditions above. |
| `WalkCache.Creature.Live` | src/creature.cpp:385-644 | After any run of steps, jumps, moves of others and changes of tiles, each of them harmless, the cache agrees with asking every tile. |
| `WalkCache.Creature.LiveAmong` | src/creature.cpp:385-644 | Among tiles whose answers depend on what can block, on ground and on creatures, the cache agrees with the contents of the tiles after any run of steps, moves of others, changes of contents and jumps to where there are tiles all around, as long as no creature just disappears. |
| `WalkCache.Creature.GetWalkCache` | src/creature.cpp:412-448 | The answer from the cache is the answer of the tile for every position in the window. |
| `WalkCache.Creature.UpdateMapCache` | src/creature.cpp:355-371 | Absent tiles are skipped, so the cache ends in sync if and only if no flag was set where there is no tile now. |
| `WalkCache.StaleAfterTeleport` | src/creature.cpp:355-371 | In one world, loading and teleporting to a lone tile leaves the cache wrong. |
| `WalkCache.StaleAfterRemoval` | src/creature.cpp:464-469 | So does the removal of an item that blocks only as a teleport or a change of floor does. |
| `DecayWheel.FireDelayExact` | src/game.cpp:4662-4709 | Going round the wheel bucket by bucket amounts to the closed form of the tick at which an item fires. |
| `DecayWheel.LongDurationError` | src/game.cpp:4691-4702 | A duration of at least one turn is met within half a second if and only if what is left after whole turns is less than 15.5 seconds. |
| `DecayWheel.ShortDurationError` | src/game.cpp:6217-6226 | A shorter duration is never undercut and overrun by at most one second. |
| `DecayWheel.EarlyFiring` | src/game.cpp:4691-4702 | An item of 31.6 seconds fires after 16 seconds. |
| `DecayWheel.Game.StartDecay` | src/game.cpp:4631-4645 | An item that can decay, does not yet and has time left is marked and goes to the end of the waiting list with its duration; one that cannot, or does already, is left as it is; one without time left decays at once, and what it becomes is registered in its turn. |
| `DecayWheel.Game.InternalDecayItem` | src/game.cpp:4647-4660 | What an item becomes, the item itself or a new one, is registered with its duration if it can decay, is not marked and has time left; not if it cannot or is marked; and if it has no time left what it becomes in the end decides. |
| `DecayWheel.RenewedExact` | src/game.cpp:4631-4660 | In the end the first form with time left is registered, if it and all before it can start to decay; it is the item itself if and only if every change on the way was in place. |
| `DecayWheel.Game.Cleanup` | src/game.cpp:6217-6226 | Every waiting item goes into one bucket, due after its delay. |
| `DecayWheel.Game.CheckItem` | src/game.cpp:4668-4705 | One look at an item: it fires exactly when it is due, leaves when it no longer decays, and otherwise is on time in exactly one bucket. |
| `DecayWheel.Game.CheckDecay` | src/game.cpp:4662-4709 | One tick: exactly the items that are due and can decay fire, those that cannot may be let go, all others stay on time in one list, and each that fired has its heir on the waiting list, if it becomes something that decays. |
| `DecayWheel.Game.Run` | src/game.cpp:4631-4709 | Over any events, that is registrations, ticks with what items become, and changes of canDecay: each item that stays able to decay, whenever registered, fires at its tick and at no other up to then, and every firing is the first since a registration, at the tick that set. An item that starts with time left is due at the closed form of its duration after the clean-up to come, and so is what an item that fires becomes; an item that nothing was about before starts in the form it had. |
| `DecayWheel.RegisteredFiresOnce` | src/game.cpp:4631-4709 | The same for one registration in a trace of events. |
| `DecayWheel.EveryFiringWasSet` | src/game.cpp:4662-4709 | The converse: no firing but the first after a registration, at its tick. |
| `DecayWheel.StartsFireInTime` | src/game.cpp:4631-4645 | In any trace an item that starts to decay with time left, and stays able to, fires at the tick of its delay counted from the next one. |
| `DecayWheel.HeirsFireInTime` | src/game.cpp:4647-4709 | In any trace what an item that fires becomes fires at the tick of its own delay, if it has time left and can start to decay; nothing comes of one that is removed. |
| `Trade.Game.IsBeingTraded` | src/game.cpp:2900-2910 | True exactly when the item is on offer, in an item on offer, or around one. |
| `Trade.Game.PlayerRequestTrade` | src/game.cpp:2832-2931 | Starts exactly under the conditions of the source, with the whole new state; refusals change nothing; the protocol invariant is kept. |
| `Trade.Game.InternalStartTrade` | src/game.cpp:2933-2971 | Starts if and only if both are idle, or the player was asked by this partner; the whole new state of both sides and of the offers; a partner who has accepted already stays so. |
| `Trade.Game.PlayerAcceptTrade` | src/game.cpp:2973-3074 | Each outcome with its exact state: nothing, one side accepted, or both idle with both offers and references released; success exactly when both offered and the items could move. |
| `Trade.Game.WholeTrade` | src/game.cpp:2832-3074 | Two idle players with unrelated items trade from beginning to end: an offer, an answer, two acceptances and success, with both idle, the offers as before and two references to be released. |
| `Trade.Game.InternalCloseTrade` | src/game.cpp:3216-3268 | Both sides idle and their items released once; in the middle of a transfer nothing happens. |
| `Trade.Game.Hooks` | src/game.cpp:3216-3226 | Attempts to close the trade while its items move change nothing, from either side and however many. |
| `Trade.Game.Cleanup` | src/game.cpp:6210-6216 | Releases the references handed over; each item keeps one reference exactly while it is on offer. |
| `Trade.Game.Run` | src/game.cpp:2832-3268 | Any requests in any order keep links symmetric, states, offers and references consistent; once all are idle every reference has been given back. |
| `Trade.Game.AllGivenBack` | src/game.cpp:6210-6216 | When nobody trades, nothing is on offer and every item has only its other references. |
| `Trade.Game.RefusedIsStuck` | src/game.cpp:2975-3007 | Between partners some further word of either, an acceptance or a request, is taken if and only if they have not both accepted, and nobody else can address them. |
| `Trade.Game.StaysRefused` | src/game.cpp:2975-3007 | Two who have both accepted, as after a script's refusal, stay so with the same items on offer over any requests of anybody, but for one of the two closing the trade. |
| `Money.WithoutExact` | src/game.cpp:1955-1961 | Taking a money item out of nested contents takes out its worth, its id and nothing else. |
| `Money.Collect` | src/game.cpp:1902-1950 | The traversal of the cylinder and its nested containers finds every money item as often as it is there, sorted by worth. |
| `Money.GetMoney` | src/game.cpp:1863-1900 | The sum of the worth of all items, nested ones included. |
| `Money.RestExact` | src/game.cpp:1978-1998 | Every sum can be paid if and only if there is a coin of worth 1. |
| `Money.LargestFirst` | src/game.cpp:1978-1998 | So many of the largest coin are paid in as few stacks of a hundred as there can be. |
| `Money.Cylinder.AddMoney` | src/game.cpp:1978-1998 | Adds exactly the sum, less what the coins cannot make up, in the cylinder or on the tile, in as few stacks of at most 100 as greedy payment allows. |
| `Money.Cylinder.RemoveMoney` | src/game.cpp:1902-1976 | True if and only if there is enough; false changes nothing; otherwise the cheapest items are taken, at most the last broken, and holdings fall by exactly the sum, plus what coins cannot make up, less what could not be removed. |
| `Money.Cylinder.ExactlyThat` | src/game.cpp:1902-1976 | With a coin of worth 1 and all items removable, exactly the sum is gone. |
| `StackMove.Container.QueryDestination` | src/container.cpp:387-460 | A stack from elsewhere goes onto the first partial stack of its kind; only such a stack can have an index beyond the capacity. |
| `StackMove.AnswerExact` | src/container.cpp:387-460 | Up leads to the parent; a stack from elsewhere goes onto the first partial stack of its kind; without such a stack the index for anywhere, or one beyond the capacity, names no slot. |
| `StackMove.FindDestination` | src/game.cpp:1463-1474 | Containers are asked one after the other, at most sixteen, until one answers itself; only the first is asked with the caller's flags. |
| `StackMove.ResolvedExact` | src/game.cpp:1463-1474 | A container that answers itself is the destination; another that has nothing to merge with is, with no slot named. |
| `StackMove.Container.QueryMaxCount` | src/container.cpp:305-366 | 100 for each free slot and, with an index, what the partial stacks take; for other items the free slots; without a limit as many as asked for, and at least one. |
| `StackMove.RoomExact` | src/container.cpp:319-333 | When nobody objects the partial stacks take what they lack of 100 in all, without the item itself. |
| `StackMove.TakenExact` | src/game.cpp:1500-1540 | How many are moved: of a stack as many as are asked for and find room, 100 in each free slot and, when a slot is named, what the partial stacks lack; of anything else one, if a slot is free; none if it may not be moved, a query objects or it is the destination; as many as asked for without a limit. |
| `StackMove.Container.RemoveThing` | src/container.cpp:591-652 | Takes exactly the count away, from the stack or as the whole item, and nothing in another container. |
| `StackMove.Deliver` | src/game.cpp:1540-1562 | Exactly what the destination holds then: what fits is on the stack found, the rest one new item in front, unless it is handed over at an index beyond the capacity. |
| `StackMove.Transfer` | src/game.cpp:1532-1562 | Exactly what source and destination hold then, also when they are the same container. |
| `StackMove.EffectSettled` | src/game.cpp:1532-1562 | The source then has so many less of its stack, or not the item any more, and the destination so many more: onto the stack found up to 100, and the rest as one new item in front, if the index is within the capacity. |
| `StackMove.InternalMoveItem` | src/game.cpp:1451-1594 | Where the item goes, how many of it are taken, what is answered and what the two containers hold then: the numbers of `TakenExact`, the contents of `EffectSettled`; the answer is that there is not enough room exactly when fewer of a stack are moved than asked for, once some are; every stack stays within 1 to 100; other containers are untouched. |
| `StackMove.EffectExact` | src/game.cpp:1532-1562 | Of such a move: nothing is gained, and exactly that is lost which does not fit onto the first partial stack when that lies at an index beyond the capacity, so nothing into a container that is not overfull. |
| `StackMove.LossExample` | src/container.cpp:467-475 | A run of moves that overfills a container with three half stacks and then loses 50 of 100 pieces. |
| `StackMove.OverfullExample` | src/container.cpp:305-366 | A full container that is let take one stack more than its capacity. |
| `DamageList.CloserExact` | src/condition.cpp:1256-1275 | The comparison of the two relative errors is an integer comparison. |
| `DamageList.GenerateDamageList` | src/condition.cpp:1256-1275 | Terminates with a non-increasing list of exactly the values from start to 1, whose sum is exactly the larger of the amount and 1 + 2 + ... + start; the values down to any one come as near to their share of the amount as rounds of that value can, with at least one round. |
| `DamageList.DefaultStartExact` | src/condition.cpp:1061-1066 | With the default start the list sums to the amount if and only if the amount is at most 760, or 780. |
| `DamageList.ConditionDamage.Init` | src/condition.cpp:1052-1076 | A condition with rounds or periodic damage is left as it is; otherwise its rounds, ticks and total damage are exactly those of the amount drawn, and it fails exactly when there is nothing to do. |
| `ConditionStream.WordRoundTrip` | src/fileloader.h:203-328 | Four bytes bring back any 32-bit number, signed or not. |
| `ConditionStream.PropWriteStream.AddType` | src/fileloader.h:317-328 | Appends the bytes; growing by units of 32 always makes room enough and keeps what was written. |
| `ConditionStream.PropStream.GetType` | src/fileloader.h:203-213 | Returns the next bytes exactly if there are enough, and nothing is consumed otherwise. |
| `ConditionStream.Serialize` | src/condition.cpp:133-150 | Writes the header and then the attributes of the subclass. |
| `ConditionStream.UnserializeProp` | src/condition.cpp:69-131 | On any bytes: takes exactly the bytes of an attribute that the subclass knows, and fails otherwise, with what is consumed. |
| `ConditionStream.Unserialize` | src/condition.cpp:57-67 | On any bytes: reads attributes up to an end mark or the end of the stream, or fails at the first bad one. |
| `ConditionStream.ReadPropsLanguage` | src/condition.cpp:57-67 | The accepted language, both ways: attributes are read without fault if and only if the stream holds attributes in a row that the condition can take one after the other, up to an end mark or the end of the stream. |
| `ConditionStream.ReadPropsExact` | src/condition.cpp:57-67 | Attributes that the condition knows, written in a row and ended by a mark, are all applied in order, and reading stops behind the mark. |
| `ConditionStream.CreateCondition` | src/condition.cpp:235-274 | On any bytes: the five leading attributes in their order make the subclass of the type, anything else makes nothing, with what is consumed. |
| `ConditionStream.ReadHeaderSound` | src/condition.cpp:235-274 | A condition is made if and only if the stream begins with five numbers behind the bytes 1, 2, 3, 26 and 27 and the type is known, and it is made from these numbers. |
| `ConditionStream.ReadHeaderExact` | src/condition.cpp:133-150 | The header written for a condition is read as that condition, and reading stops behind it. |
| `ConditionStream.HeaderBytes` | src/condition.cpp:133-150 | The 25 bytes written first for one condition, one by one. |
| `ConditionStream.DamageBytes` | src/condition.cpp:979-1000 | The bytes that a damage condition adds, one by one. |
| `ConditionStream.KindsExact` | src/condition.cpp:182-233 | Which types have which subclass. |
| `ConditionStream.TailRoundTrip` | src/condition.cpp:182-233 | For each subclass, the condition made from the saved header and given the saved attributes is the one saved, field by field. |
| `ConditionStream.RebuiltIsSum` | src/condition.cpp:959-970 | The ticks of a damage condition come back as the sum of its intervals. |
| `ConditionStream.RestoredExact` | src/condition.cpp:959-1000 | What comes back is what was saved, but for the ticks of a damage condition, which are the sum of its intervals. |
| `ConditionStream.LoadAll` | src/iologindata.cpp:438-450 | On any bytes: the conditions that can be made, one after the other, without those with bad attributes. |
| `ConditionStream.UnknownIsLeftOut` | src/iologindata.cpp:438-450 | A condition with an attribute that it does not know is left out, and all those saved behind it come back. |
| `ConditionStream.ReadConditionsExact` | src/iologindata.cpp:438-450 | For every list of conditions, reading what was written for them restores every one in order and leaves the stream at its end. |
| `ConditionStream.SavedExact` | src/iologindata.cpp:839-850 | Exactly the conditions with ticks that are not of combat are saved, and a gamemaster's. |
| `ConditionStream.SaveAndLoad` | src/iologindata.cpp:839-850 | Any list of conditions saved and loaded: those that last come back in order, with all that is written of them. A list of conditions that all last, none of attributes or of damage, comes back as it was. |
| `ConditionEngine.SumUpdate` | src/condition.cpp:348-369 | Changing one condition changes the sum of effects by the difference of the two. |
| `ConditionEngine.Creature.EndCondition` | src/condition.cpp:492-523 | Takes away exactly what the condition gives: from the speed, from each skill and from each stat. |
| `ConditionEngine.Creature.StartCondition` | src/condition.cpp:1404-1415 | Gives exactly what the condition, percentages turned into points, is then worth: speed, each skill and each stat rise by that. |
| `ConditionEngine.Creature.Merge` | src/condition.cpp:1423-1451 | The effect of the old condition gives way to that of the new one, and only if it is taken. |
| `ConditionEngine.MergedExact` | src/condition.cpp:276-369 | Which of two conditions prevails: of two timed ones that are no changes of speed the one that ends later, the new one if it ends no earlier; a permanent one does not give way to a timed one; one without end takes over; a change of speed gives way to any but a timed one while it is permanent. What takes over ends at its own time and has its own effect. |
| `ConditionEngine.InEffectExact` | src/condition.cpp:435-451 | In force, a player's percentages of skills and stats are points: the surplus over a hundred percent of the level, with less than a point of it lost; a speed not given is the one drawn. |
| `ConditionEngine.Creature.AddCondition` | src/creature.cpp:1335-1357 | A condition with a key that is there is merged in its place, and which of the two prevails, until when and with what effect is that of `MergedExact`; any other is added at the end if it starts, to end at its own time and with its own effect; sums and uniqueness are kept. |
| `ConditionEngine.Creature.RemoveConditions` | src/creature.cpp:1371-1450 | Exactly the conditions meant are gone, in order, with their effects: those of a type, of a type and id, all, or all that have ticks and are not of combat. |
| `ConditionEngine.Creature.ExecuteConditions` | src/creature.cpp:1463-1480 | Each condition is executed once; exactly those without end, unchanged, and those whose end is not past, with fewer ticks but not below none, are left. |
| `ConditionEngine.Creature.EffectsCancel` | src/creature.cpp:1335-1480 | A creature without conditions has the speed, skills and stats it has from elsewhere. |
| `ConditionEngine.Creature.Run` | src/creature.cpp:1335-1480 | Over any run, at most one condition per type, id and sub-id; speed, skills and stats are always the sums over the list, and cancel when it empties. |
| `Connections.StepKeepsValid` | src/connection.cpp:89-258 | Every step of any thread keeps the invariant. |
| `Connections.CloseProtocol` | src/connection.cpp:185-215 | Over every run of a new connection a closing task is queued exactly while closing is asked for, at most one write is under way, no counter is negative, and release happens at most once; so the error branch and the branch for slow connections are never taken. |
| `Connections.StaysAttended` | src/connection.cpp:318-459 | From the moment a connection is accepted, and as long as every read and write starts without an exception, it is being read from by one handler until it is closed, and its counters are exactly the handlers outstanding. |
| `Connections.ClosedIsForever` | src/connection.cpp:89-101 | A closed connection stays closed whatever happens, and is not released again. |
| `Connections.NothingAfterStop` | src/connection.cpp:269-291 | Once the socket is deleted no write handler, no task and no message that names the connection is left or comes. |
| `Connections.CanCloseExact` | src/connection.cpp:185-215 | A connection can still get closed if and only if it is not stuck with a counted write whose handler has gone and a socket that is shut already. |
| `Connections.CanEndExact` | src/connection.cpp:217-291 | And then, if and only if it is not stuck, it can also be released and its socket deleted. |
| `Connections.NotStuck` | src/connection.cpp:217-258 | Without the manager's shutdown no connection gets stuck. |
| `Connections.ShutdownCanStick` | src/connection.cpp:69-87 | With it, any connection that waits for its last write can. |
| `Connections.Connection.Close` | src/connection.cpp:89-101 | Asks for closing at most once at a time. |
| `Connections.Connection.CloseConnection` | src/connection.cpp:185-215 | The queued task: the whole new state. |
| `Connections.Connection.SendMessage` | src/connection.cpp:461-499 | Writes when nothing is under way, queues otherwise, asks for closing with more than 100 waiting if told to; refuses exactly when not open or after a write error. |
| `Connections.Connection.OnWrite` | src/connection.cpp:537-561 | The handler of a write: the whole new state; without an error an open connection stays so with one write less, otherwise the socket is shut and closing asked for. |
| `Connections.Connection.ParsePacket` | src/connection.cpp:385-459 | The handler of a read: the whole new state; without an error the next read begins, unless no protocol can be made, and then closing is asked for. |
| `Connections.Connection.Run` | src/connection.cpp:89-561 | The connection object goes through any run as the transition function says. |
| `Dispatchers.StepKeepsValid` | src/dispatcher.cpp:37-143 | Every step of any thread keeps the invariant. |
| `Dispatchers.TasksAccountedFor` | src/dispatcher.cpp:37-143 | Over any run each task accepted is on the list, in hand, run or expired, as often as it was accepted; tasks put at the back are taken in order; a thread that waits although there is work will be notified. |
| `Dispatchers.HeadIsReached` | src/dispatcher.cpp:50-85 | From any state with work some step is possible that brings the thread closer to the head of the list, until it takes it. |
| `Dispatchers.Drains` | src/dispatcher.cpp:48-85 | From any state but after a shutdown a run of the thread's own steps and the notifications owed works off the whole list: each task is run, in order, unless it has expired. |
| `Dispatchers.ExitExact` | src/dispatcher.cpp:136-143 | After a shutdown, without a spurious wake-up and without a later stop, the thread can end if and only if it is not waiting, or about to, with nobody left to notify it. |
| `Dispatchers.ShutdownWhileIdle` | src/dispatcher.cpp:136-143 | A thread that waits for work when the dispatcher is shut down does not end, without a spurious wake-up and without a later stop. |
| `Dispatchers.WakeUpEnds` | src/dispatcher.cpp:37-86 | One spurious wake-up, and nothing else from outside, ends a thread that is so stranded. |
| `Dispatchers.Dispatcher.AddTask` | src/dispatcher.cpp:88-109 | Accepts a task only while running, at the front or the back as asked; the caller notifies exactly if the list was empty. |
| `Dispatchers.Dispatcher.Take` | src/dispatcher.cpp:48-64 | The critical section of the thread: the whole new state; the task taken is the head of the list, and none is taken from an empty list or after a shutdown. |
| `Dispatchers.Dispatcher.Shutdown` | src/dispatcher.cpp:136-143 | Everything left on the list is run, from head to tail, expired or not. |
| `CombatAreas.TurnedInside` | src/combat.cpp:1226-1237 | Every cell of the input, rotated about the centre, lands inside the square of twice its longer side. |
| `CombatAreas.Rotate` | src/combat.cpp:1197-1240 | The offsets from the centre that the output covers are exactly the turned offsets of the input. |
| `CombatAreas.MirrorArea` | src/combat.cpp:1175-1185 | The offsets are mirrored and, for an area that is not square, shifted. |
| `CombatAreas.FlipArea` | src/combat.cpp:1186-1196 | The same, up and down. |
| `CombatAreas.MirrorExact` | src/combat.cpp:1175-1185 | The copy of an area that covers something is its mirror image if and only if the area is square. |
| `CombatAreas.FlipExact` | src/combat.cpp:1186-1196 | So is the flipped copy its image upside down. |
| `CombatAreas.CreateArea` | src/combat.cpp:1243-1266 | The matrix has the cells of the list, row by row, and the last mark as its centre, or the corner without one. |
| `CombatAreas.CellExact` | src/combat.cpp:1243-1266 | A cell is set if and only if its number is 1 or 3. |
| `CombatAreas.LastMark` | src/combat.cpp:1248-1262 | The mark that becomes the centre is a 2 or a 3 with no such number behind it. |
| `CombatAreas.CombatArea.SetupArea` | src/combat.cpp:1268-1289 | The areas for south, east and west are the one for the north, turned. |
| `CombatAreas.CombatArea.SetupCone` | src/combat.cpp:1291-1319 | The cone covers exactly the rows up to its length, each symmetric about the centre with half-width q - (y - 1) / spread. |
| `CombatAreas.CombatArea.SetupExtArea` | src/combat.cpp:1357-1383 | The copies for the other diagonals are the mirror image and the flipped one, each shifted by an exact amount, and the mirror image of the flipped one; for a square list there is no shift. |
| `CombatAreas.DirectionTurns` | src/combat.h:215-246 | With diagonal areas the choice of direction turns with the target; without them it does exactly for targets straight ahead. |
| `CombatAreas.DirectionExact` | src/combat.h:215-246 | With diagonal areas the direction leads toward the target along both axes, without them along the horizontal one whenever the target lies to one side; a target in the same place counts as south. |
| `CombatAreas.AimTurns` | src/combat.cpp:1268-1289 | When a target straight ahead turns by a quarter, so does exactly what the area chosen for it covers. |
| `CombatAreas.CombatArea.GetList` | src/combat.cpp:1120-1159 | The list holds each visible position that the area for the direction covers around the target exactly once, and no other. |

## Left out

- FileLoader.FileLoader.ReadBytes: with a cache it asks for a range inside the file; beyond its end the source loops for ever (CopyFromBlock).
- FileLoader.FileLoader.GetProps: asks for escaped properties of at most the buffer plus 1024 bytes, by which the source grows the buffer once; beyond that it writes past the buffer.
- FileLoader.FileLoader.OpenRead: files are shorter than 2^31 bytes, and one loader opens one file; handles, zlib and their failures are not modelled.
- FileLoader.FileWriter.WriteData: writing never fails.
- FileLoader.SaveAndLoad: escaped properties of at most 2048 bytes a node, as GetProps asks for.
- Container.Thing.AddThing: clients and listeners are not told. `addItem` alone and `clone` do not touch the total and are not modelled.
- Depot.ContainerQueryAdd: the answer of an outermost cylinder that is no container is a parameter.
- WalkCache.Creature.Live: what a tile answers is a parameter of the world; `LiveAmong` makes it depend on contents. Steps are of one tile, as all moves but teleports are.
- Depot.Transfer: a stack that moves as a whole stays the same object here; the source puts a new one in its place. Merging of stacks is in StackMove.
- Depot.Run: the limit of a depot that lies deeper is not asked for by the source and not promised.
- DecayWheel.Game.Run: what an item becomes is a parameter of each tick; the references held by the wheel are not modelled, nor a transformation from outside that sets the duration of an item anew while it is on the wheel.
- Trade.Game.PlayerRequestTrade: finding the item, distances and paths are taken as passed.
- Trade.Game.PlayerAcceptTrade: whether the queries of the transfer succeed is a parameter; the two moves that follow, whose results the source ignores, are not modelled. Which item lies in which stays fixed.
- Money.Cylinder.AddStack: a stack goes as a whole into the cylinder or onto the tile; merging with stacks there is not modelled, nor are 32-bit overflows of worth.
- Money.Cylinder.RemoveMoney: a cylinder's direct slots are a list of items.
- StackMove.InternalMoveItem: the exchange of items, which only a player's inventory asks for, items without a parent, and containers of unlimited size are not modelled; the outer cylinder's answers are parameters.
- DamageList.GenerateDamageList: products are unbounded; the source multiplies in 32 bits.
- ConditionStream.UnserializeProp: a skill or stat too many fails here; the source writes behind its array.
- ConditionStream.RebuiltIsSum: sums are unbounded; the source adds in 32 bits.
- ConditionEngine.Creature.Run: conditions are values owned by the list, so aliasing of a condition object is not captured; conditions that change neither speed nor skills nor stats share the timing of ConditionGeneric; scripts that add or remove conditions in the middle of a step and changes by setParam of a condition on the list are not modelled; percentages are exact before they are truncated.
- Connections.ShutdownCanStick: the manager also drops its list of connections, and with it objects that nothing else refers to; here they stay.
- Connections.CanCloseExact: the timers of reads and writes can expire at any time before the socket is deleted, armed or not.
- Connections.CloseProtocol: the dispatcher accepts the closing task, and a cancelled timer that has already expired when the socket is deleted does not run.
- Dispatchers.TasksAccountedFor: tasks run while the list is flushed add no tasks, which would lock up in the source.
- CombatAreas.Rotate: quarter turns are exact; the source rounds.
- setupArea for a radius: it passes a fixed table of 13 by 13 on to setupArea for a list.
- Lua events, client messages, SQL, XML, sockets, chat commands, configuration and path finding.
