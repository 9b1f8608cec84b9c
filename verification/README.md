# SDL3, modelled and proved in Dafny

This project models the parts of SDL3 whose correctness rests on more than one
function: the Robin Hood hash table, the generated in-place audio channel
converters, the reference counts of the subsystems, the lock-free creation of
IDs and shared property groups, the cleanup of properties, hints and their
watchers, the rational approximation of a number, and percent-decoding.
`dafny verify dfyconfig.toml` checks everything.

## The files

| file | models |
|---|---|
| `Words.dfy`, `Arithmetic.dfy`, `Wrappers.dfy` | machine words, cyclic slot numbers, facts about multiplication, optional values |
| `Bits.dfy` | bit operations, the highest set bit, capacities of hash tables |
| `Slots.dfy` | the slots of a hash table and the Robin Hood order |
| `Bindings.dfy` | the finite map that a hash table stands for |
| `Insertion.dfy`, `Lookup.dfy` | the insertion, lookup and backward-shift loops |
| `HashTable.dfy` | the hash table as an object, with growth and the public calls |
| `HistoryIndependence.dfy` | the layout depends on nothing but the keys |
| `IdTables.dfy` | tables keyed by IDs need one probe |
| `ChannelConverter.dfy` | the converter generator, the emitted loops, and what they compute |
| `ChannelNecessity.dfy` | when converting in place is right |
| `ChannelLevels.dfy`, `ChannelTables.dfy` | what a good table is, and that all 56 tables are good and may be run in place |
| `Subsystems.dfy`, `SdlInit.dfy`, `SdlLaws.dfy` | the subsystems, the code that counts references to them, and what the counts promise |
| `ShutDownOrder.dfy`, `StartUpOrder.dfy` | which stops the shutdown makes, and when it keeps the order of the dependencies; the order of the starts |
| `LazyIds.dfy` | compare-and-swap loops, step by step, with any number of threads |
| `Properties.dfy` | property groups and who calls which cleanup |
| `Hints.dfy` | hints, environment variables and watchers |
| `Fractions.dfy` | greatest common divisors and rational approximation |
| `PercentDecoding.dfy` | percent-decoding, section 2.1 of RFC 3986 |

## How it is modelled

- **Hash table.** A class over an array of items, with the source's fields. Its
  ghost field `contents` is a finite map from what a key stands for to the key
  and value pointers last stored. The two key callbacks are given by a function
  from keys to identities and one from identities to hashes; every equivalence
  that the hash respects has this form. `num_buckets - 1` masks are written as
  remainders; `HashTables.MasksAreRemainders` shows that they are the same. Item
  to insert and table are two arrays, as the insertion loop overwrites the item
  it was given. Calls of the destroy callback are recorded in `destroyed`.
- **Converters.** `WriteConverter` is the generator, loop for loop; what it
  writes is a small program (`Program`) instead of C text. `ConvertFrame`,
  `RunBackwards` and `RunForwards` run such a program on one array of reals that
  holds both buffers. Samples and coefficients are reals.
- **Subsystems.** Each call is a function from state to state, and a method of
  `Sdl` with the source's loops and recursion that is proved equal to it. The
  requests that SDL_VideoInit, SDL_InitJoysticks and SDL_InitSensors make for
  the events subsystem, and their quit functions release, are calls inside those
  calls (`BringUp`, `ShutDown`). Flags are sets, the counter array is a record
  with one 8-bit counter for each subsystem (an increment wraps at 256). Whether
  a subsystem's drivers come up is an arbitrary function `Starts`. Starts and
  stops are logged where the drivers come up and where they are quit: joysticks
  and sensors quit their drivers before they release events, video after that.
- **Lock-free code.** One step is one access to shared memory by one thread; a
  run is any sequence of steps by callers that get the shared group, create a
  group of their own, or quit. Locked sections elsewhere are atomic.
- **Properties.** `asked` lists every call that handed a value over with a
  cleanup callback, `called` every cleanup call with its arguments. Whether an
  allocation or an insertion succeeds is a parameter.
- **Hints.** A hint's record and what each callback was last told make an
  `Entry`; each call is a function on entries, and the methods of `HintTable`
  change one entry in this way and no other. The environment is an arbitrary
  function that does not change during a run.
- **Fractions.** Numbers are reals. The method is the source's loop.
- **Decoding.** `URIDecode` works on byte arrays, and `src` and `dst` may be one
  array. `Decoded` says what a text decodes to, without buffers.

## Where code and documentation differ

- A lookup that finds nothing leaves the caller's variable alone
  (SDL3/src/SDL_hashtable.c:350-358), although the header says that it is set to
  NULL (SDL3/src/SDL_hashtable.h:343-344). `HashTables.HashTable.FindValue`
  follows the code.
- An insertion that is to replace a binding and fails has already dropped the
  old binding; every insertion fails at the largest capacity. See
  `HashTables.HashTable.Insert`.
- `SDL_Quit` does not always keep the order of the dependencies. It keeps it if
  and only if video does not run and at most one of the audio, joystick, camera
  and sensor subsystems does (`ShutDownOrder.ShutDownKeepsOrderIffFew`). Video
  alone (`ShutDownOrder.VideoOutOfOrder`), audio and sensors
  (`ShutDownOrder.AudioAndSensorsOutOfOrder`), and audio and video
  (`ShutDownOrder.AudioAndVideoOutOfOrder`) are inputs that break it.
- A hint's watchers are not told when an override to NULL uncovers a stored NULL
  below an environment variable, and are told of a text even if it cannot be
  copied. `Hints.AgreementStep` shows that these are the only calls that break
  the agreement; `Hints.SilentOverride` and `Hints.FailedCopy` give the inputs.
- The approximation of a number is not always the nearest fraction.
  `Fractions.FoundIsNearestUnlessMisjudged` says exactly when it is,
  `Fractions.NotAlwaysNearest` gives an input.

## Model

| member | source | states |
|---|---|---|
| Bits.MostSignificantBitIndex32 | SDL3/include/SDL3/SDL_bits.h:86-111 | the portable loop finds the index r with 2^r <= x < 2^(r+1) for every 32-bit x, and -1 for 0 |
| Bits.OneBitIsPowerOfTwo | SDL3/include/SDL3/SDL_bits.h:132-138 | x and x & (x - 1) tell exactly the powers of two |
| Bits.CalculateHashBucketsFromEstimate | SDL3/src/SDL_hashtable.c:54-67 | every estimate gives a power of two from 1 to 2^26, less than twice the estimate and at least the estimate unless it is the maximum |
| HashTables.MasksAreRemainders | SDL3/src/SDL_hashtable.c:147-161 | masking a hash or a successor slot is taking the remainder by the capacity |
| Slots.BackChain | SDL3/src/SDL_hashtable.c:186-210 | walking back from an item towards its home meets only live slots, and d steps back the item is at most d steps nearer its own home |
| Slots.PlaceKeepsRobinHood | SDL3/src/SDL_hashtable.c:168-210 | putting an arriving item into an empty slot, or in place of one that is nearer home, keeps the Robin Hood invariant |
| Slots.ShiftKeepsRobinHood | SDL3/src/SDL_hashtable.c:241-244 | moving the next item back into a hole keeps the invariant |
| Slots.ZeroKeepsRobinHood | SDL3/src/SDL_hashtable.c:236-238 | zeroing the last hole of a shift keeps the invariant |
| Slots.NothingBeyond | SDL3/src/SDL_hashtable.c:128-141 | no item with a given home lies at or beyond an empty slot or one holding an item nearer home than the probe |
| Insertion.Evict | SDL3/src/SDL_hashtable.c:190-210 | an eviction keeps table and item in hand together the same multiset, and the given item in its slot |
| Insertion.InsertItem | SDL3/src/SDL_hashtable.c:158-216 | the loop ends, adds exactly the given item to the multiset of entries, keeps the invariant, raises the probe bound no higher than a slot reaches, and returns a slot that still holds the given item |
| Lookup.SearchEnds | SDL3/src/SDL_hashtable.c:128-141 | both early exits are right: the key is in no slot at all |
| Lookup.SearchExhausted | SDL3/src/SDL_hashtable.c:143-145 | so is the exit at the probe bound, even when the bound is stale |
| Lookup.FindItem | SDL3/src/SDL_hashtable.c:117-156 | the loop ends and returns a live slot with a matching key, or none if and only if no slot has one |
| Lookup.ShiftHole | SDL3/src/SDL_hashtable.c:241-244 | one backward shift keeps the invariant and moves the doubled entry on to the next slot; the shifted probe length is below the bound |
| Lookup.ShiftBack | SDL3/src/SDL_hashtable.c:230-246 | the deletion loop ends, takes exactly the given slot's entry out of the multiset and keeps the invariant |
| HashTables.CapacityDoubles | SDL3/src/SDL_hashtable.c:277-287 | a capacity below the limit may be doubled and stays a power of two up to 2^26 |
| HashTables.LoadLeavesRoom | SDL3/src/SDL_hashtable.c:283-286 | the load threshold is below the capacity, and one more than it is within the threshold of the doubled table |
| HashTables.Rehash | SDL3/src/SDL_hashtable.c:260-269 | copying keeps the multiset of entries and builds the invariant with an exact probe bound, though each insertion may overwrite the old slot it reads |
| HashTables.HashTable.ValidLeavesEmptySlot | SDL3/src/SDL_hashtable.c:275-291 | in every reachable table a slot is empty, so all probing loops end |
| HashTables.HashTable.ValidCounts | SDL3/src/SDL_hashtable.c:324-327 | the occupied count is the number of bindings |
| HashTables.HashTable.constructor | SDL3/src/SDL_hashtable.c:69-99 | a new table is valid and empty; its capacity is 4 for estimates up to 0 and otherwise less than twice the estimate |
| HashTables.HashTable.Find | SDL3/src/SDL_hashtable.c:151-156 | a slot is found if and only if the key is bound, and it holds that binding |
| HashTables.HashTable.DeleteItem | SDL3/src/SDL_hashtable.c:218-246 | drops the slot's binding and no other, calls the destroy callback for it once |
| HashTables.HashTable.Resize | SDL3/src/SDL_hashtable.c:248-273 | keeps every binding and gives a fresh exact probe bound, or changes nothing |
| HashTables.HashTable.MaybeResize | SDL3/src/SDL_hashtable.c:275-291 | grows if 256 times the occupied slots exceed 217 times the capacity; fails exactly at the largest capacity or when a needed allocation fails; otherwise there is room for one more item |
| HashTables.HashTable.Insert | SDL3/src/SDL_hashtable.c:293-337 | a map update; says for all inputs when it fails and what is left then: nothing changed, or only the replaced binding gone; the new capacity is the old one or, exactly if the load asks for it, twice that |
| HashTables.HashTable.FindValue | SDL3/src/SDL_hashtable.c:339-363 | map lookup; a miss leaves the caller's variable as it was |
| HashTables.HashTable.Remove | SDL3/src/SDL_hashtable.c:365-383 | map removal, with the destroy callback called once for the binding, if there was one |
| HashTables.HashTable.Iterate | SDL3/src/SDL_hashtable.c:385-410 | shows each binding exactly once, in slot order, up to where the callback stops; the early break hides none |
| HashTables.HashTable.IsEmpty | SDL3/src/SDL_hashtable.c:412-422 | true if and only if there is no binding |
| HashTables.HashTable.Clear | SDL3/src/SDL_hashtable.c:440-451 | leaves a valid empty table; the destroy callback has seen each binding exactly once |
| HashTables.HashTable.DestroyAll | SDL3/src/SDL_hashtable.c:425-438 | the destroy callback sees every live slot once, in order |
| Bindings.RepresentsOne | SDL3/src/SDL_hashtable.c:117-134 | the stored entries stand for one map only |
| Bindings.LivePairsEnumerate | SDL3/src/SDL_hashtable.c:398-406 | walking the slots lists every binding of the map exactly once |
| HistoryIndependence.ReachingRecurrence | SDL3/src/SDL_hashtable.c:158-246 | how many items reach a slot follows from the homes alone, slot by slot |
| HistoryIndependence.LayoutIsDetermined | SDL3/src/SDL_hashtable.c:158-246 | two Robin Hood tables with as many items at home in each slot occupy the same slots, with the same probe length and home in each |
| HistoryIndependence.ContentsDetermineLayout | SDL3/src/SDL_hashtable.c:158-246 | two such tables with the same bindings are laid out alike |
| HistoryIndependence.TablesAgree | SDL3/src/SDL_hashtable.c:293-383 | any two reachable tables of one capacity with the same bindings are laid out alike, whatever calls made them |
| IdTables.MixerIsInvertible | SDL3/src/SDL_hashtable.c:101-105 | multiplying by 0x9E3779B1 loses nothing modulo any capacity |
| IdTables.HomesOfIds | SDL3/src/SDL_hashtable.c:101-105 | two IDs share a home if and only if they are congruent modulo the capacity |
| IdTables.OneProbe | SDL3/src/SDL_hashtable.c:513-517 | a table of IDs that are pairwise incongruent modulo the capacity has every item at home |
| IdTables.ConsecutiveIds | SDL3/src/SDL_hashtable.c:151-156 | so has any table of IDs from a range no longer than the capacity |
| ChannelConverter.CountUses | SDL3/build-scripts/gen_audio_channel_conversion.c:248-262 | the moving pointer counts, for each input, the outputs that use it |
| ChannelConverter.WriteConverter | SDL3/build-scripts/gen_audio_channel_conversion.c:234-400 | the loops write the program that the matrix determines, for every pair of different channel counts and no other |
| ChannelConverter.RowIsProduct | SDL3/build-scripts/gen_audio_channel_conversion.c:308-334 | with its inputs intact, an emitted right-hand side is the matrix row times the frame, although terms are skipped and sums reordered |
| ChannelConverter.BodyIsProduct | SDL3/build-scripts/gen_audio_channel_conversion.c:304-337 | after k assignments in place, k outputs are right and the rest is untouched |
| ChannelConverter.FrameIsProduct | SDL3/build-scripts/gen_audio_channel_conversion.c:297-337 | one frame, in place or not, becomes the out-of-place matrix product |
| ChannelConverter.ConvertFrame | SDL3/build-scripts/gen_audio_channel_conversion.c:355-395 | the emitted loop body does to the array what the program means |
| ChannelConverter.OneEarlierFrame | SDL3/build-scripts/gen_audio_channel_conversion.c:271-296 | growing, backwards: converting frame f keeps the later results and finds its own input untouched |
| ChannelConverter.OneLaterFrame | SDL3/build-scripts/gen_audio_channel_conversion.c:341-353 | shrinking, forwards: converting frame f keeps the earlier results and finds its own input untouched |
| ChannelConverter.RunBackwards | SDL3/build-scripts/gen_audio_channel_conversion.c:271-339 | for every frame count, all frames become the product of the input as it was at the start |
| ChannelConverter.RunForwards | SDL3/build-scripts/gen_audio_channel_conversion.c:340-397 | the same for the forward loop |
| ChannelConverter.RunConverter | SDL3/build-scripts/gen_audio_channel_conversion.c:271-397 | the emitted loop refines the out-of-place matrix product, in one buffer or in two, and touches nothing else |
| ChannelNecessity.TooLateIsWrong | SDL3/build-scripts/gen_audio_channel_conversion.c:311-317 | a matrix whose input is overwritten before its only use converts some buffer wrongly |
| ChannelNecessity.InPlaceIffSafe | SDL3/build-scripts/gen_audio_channel_conversion.c:271-337 | converting in place is right for all samples if and only if no input that is read directly is overwritten first |
| ChannelTables.TablesAreSafe | SDL3/build-scripts/gen_audio_channel_conversion.c:55-219 | all 56 tables of the generator meet that condition |
| ChannelLevels.ProductWithin | SDL3/build-scripts/gen_audio_channel_conversion.c:304-334 | a row of non-negative coefficients that add up to at most 1.002 takes samples in [-1, 1] to a sample in [-1.002, 1.002] |
| ChannelTables.NoOutputIsTooLoud | SDL3/build-scripts/gen_audio_channel_conversion.c:55-200 | in all 56 tables no coefficient is negative and no row adds up to more than 1.002; the first row adds up to at least 0.999 for up to five outputs |
| ChannelTables.NoInputIsLost | SDL3/build-scripts/gen_audio_channel_conversion.c:55-200 | every input reaches some output, and all outputs together take at least an even share of it |
| ChannelTables.SidesAreAlike | SDL3/build-scripts/gen_audio_channel_conversion.c:38-200 | swapping left and right speakers of input and output leaves each table unchanged, and left outputs take at least as much from a left input as from its right counterpart |
| ChannelTables.SpeakersKeepTheirPlaces | SDL3/build-scripts/gen_audio_channel_conversion.c:38-200 | a speaker that input and output both have is passed on; bass passes with coefficient 1, and front left takes from no input more than from front left |
| ChannelTables.ConvertInPlace | SDL3/build-scripts/gen_audio_channel_conversion.c:435-439 | for every channel pair and frame count, the generated loop in one buffer yields each frame's matrix product; samples in [-1, 1] come out in [-1.002, 1.002] |
| Subsystems.BalancedIsDetermined | SDL3/src/SDL.c:248-260 | counts and running subsystems are balanced, with every request that running subsystems hold, if and only if they are the ones that the outstanding requests determine |
| Subsystems.StoppedOnce | SDL3/src/SDL.c:705-746 | in a legal log, stops that leave nothing running stop each running subsystem once |
| SdlInit.Sdl.BringUp | SDL3/src/sensor/SDL_sensor.c:126-158 | the init functions of subsystems, with their own request for events: it is made first and released if the drivers fail |
| SdlInit.Sdl.ShutDown | SDL3/src/video/SDL_video.c:4672-4729 | the quit functions, with the release of that request before or after the drivers are quit |
| SdlInit.Sdl.QuitSubSystem | SDL3/src/SDL.c:589-673 | the recursive loop, through the quit functions of the subsystems and back, is the state function Quit |
| SdlInit.Sdl.InitOrIncrement | SDL3/src/SDL.c:248-260 | increments a counted subsystem, initialises another one |
| SdlInit.Sdl.InitSubSystem | SDL3/src/SDL.c:329-582 | the loop with rollback, through the init functions of the subsystems and back, is the state function Init, and fails before main is ready |
| SdlInit.Sdl.QuitAll | SDL3/src/SDL.c:705-746 | a forced quit of everything, with all counters zeroed |
| SdlInit.Sdl.WasInit | SDL3/src/SDL.c:675-703 | exactly the asked-for subsystems with a positive count; no flags ask for all |
| SdlLaws.AnotherIncremented | SDL3/src/SDL.c:201-208 | incrementing the counter of a counted subsystem grants one more request: all counts stay balanced, nothing has to start and the 8-bit counter does not wrap |
| SdlLaws.QuitFewer | SDL3/src/SDL.c:211-221 | decrementing the counter of a subsystem that stays counted releases exactly one request and keeps all counts balanced; a counter at zero stays there |
| SdlLaws.UndoneCount | SDL3/src/SDL.c:201-221 | a decrement takes an increment back: every counter is as before |
| SdlLaws.VideoMayStopFirst | SDL3/src/video/SDL_video.c:4686-4707 | outside the shutdown it makes no difference that video releases events before its drivers are quit |
| SdlLaws.BackendStops | SDL3/src/joystick/SDL_joystick.c:2244-2277 | the quit function of a subsystem that loses its last request stops it and releases its own request, and keeps counts balanced for what SDL.c still holds |
| SdlLaws.QuitOneReleases | SDL3/src/SDL.c:593-672 | quitting one requested flag releases every request that was held for it alone and keeps counts balanced for one request less; forced, it only stops and zeroes |
| SdlLaws.QuitReleases | SDL3/src/SDL.c:589-673 | the same for any set of flags |
| SdlLaws.CountedEarly | SDL3/src/SDL.c:405-413 | it makes no difference that a subsystem's counter is up while its init function makes its own request |
| SdlLaws.OwnGranted | SDL3/src/video/SDL_video.c:634-638 | a subsystem's own request is granted, or something that is missing does not start and nothing is left of it |
| SdlLaws.InitOneKeeps | SDL3/src/SDL.c:371-569 | initialising one flag succeeds exactly if every missing subsystem starts, and otherwise leaves counts and running subsystems as they were, at any depth of nested calls |
| SdlLaws.InitIsAllOrNothing | SDL3/src/SDL.c:329-582 | for any flags: success exactly if everything missing starts; on failure every count and status is as before the call |
| StartUpOrder.InitComesUp | SDL3/src/SDL.c:329-582 | a successful initialisation stops nothing and, but for events, starts what is missing in the order video, audio, joysticks, gamepads, haptic devices, sensors, cameras |
| SdlLaws.QuitUndoesInit | SDL3/src/SDL.c:589-673 | quitting the flags of a successful initialisation restores every count and status |
| SdlLaws.EventsComeUpFor | SDL3/include/SDL3/SDL_init.h:80-87 | after every successful initialisation, from any balanced state, events run if and only if they did before or a flag was given that is documented to imply them, sensors included |
| SdlLaws.ShutDownStopsEachOnce | SDL3/src/SDL.c:705-746 | the shutdown stops each running subsystem exactly once and leaves no count |
| ShutDownOrder.FlagQuits | SDL3/src/SDL.c:593-672 | during the shutdown one flag stops its subsystem and, as far as they still run, those it needs, video events first and the others themselves first |
| ShutDownOrder.ShutDownStops | SDL3/src/SDL.c:705-713 | the log of the whole shutdown, stop by stop, as a function of what ran |
| ShutDownOrder.ShutDownGoesDown | SDL3/src/SDL.c:589-746 | but for events, the shutdown stops cameras, sensors, gamepads, joysticks, haptic devices, audio and video in this order, each if it runs |
| ShutDownOrder.ShutDownKeepsOrderIffFew | SDL3/src/SDL.c:589-746 | at every point of the shutdown everything that runs has what it needs, if and only if video did not run and at most one of audio, joysticks, cameras and sensors did |
| ShutDownOrder.VideoOutOfOrder | SDL3/src/video/SDL_video.c:4689-4707 | video alone breaks it: events stop before the video driver |
| ShutDownOrder.AudioAndSensorsOutOfOrder | SDL3/src/sensor/SDL_sensor.c:551-556 | so do audio and sensors: events stop with the sensors, while audio runs |
| ShutDownOrder.AudioAndVideoOutOfOrder | SDL3/src/SDL.c:642-672 | and audio and video: audio, events and video stop, in this order |
| SdlLaws.RunBalances | SDL3/src/SDL.c:329-746 | after every run in which clients quit only what they initialised, each count is the number of outstanding requests plus those that running subsystems hold |
| SdlLaws.EventsCounted | SDL3/src/video/SDL_video.c:635 | so the events counter is the number of outstanding requests, plus two for each of video and joysticks and one for each of audio, cameras and sensors that run |
| SdlLaws.RunsAreDetermined | SDL3/src/SDL.c:329-746 | counts and running subsystems are a function of the outstanding requests, whatever the order of calls; starts and stops alternate, and outside the shutdown dependencies run whenever their dependents do |
| LazyIds.IdsAreUnique | SDL3/src/SDL_properties.c:184-192 | in every interleaving of lazy getters, quits and other callers of the ID loop, issued IDs are nonzero and pairwise different |
| LazyIds.SpinsAtTheEnd | SDL3/src/SDL_properties.c:185-192 | after the last ID no further ID is issued: the counter never wraps |
| LazyIds.CreateEnds | SDL3/src/SDL_properties.c:158-204 | from every reachable state with an ID left, a caller that runs alone ends with a group of its own under the next ID, and nothing else has changed |
| LazyIds.SwapFailsOnlyForAnother | SDL3/src/SDL_properties.c:184-192 | in every interleaving a swap issues the ID that it asks for, unless another thread has issued it since this one looked |
| LazyIds.GroupsEndOnce | SDL3/src/SDL_hints.c:50-74 | in every interleaving with quits and other callers, each group is installed, owned by one thread, destroyed once or its caller's to keep, and none is lost |
| LazyIds.QuitEnds | SDL3/src/SDL_hints.c:50-60 | a quit that runs alone leaves no group installed and has destroyed the one that was |
| LazyIds.CallsEndAlone | SDL3/src/SDL_properties.c:142-204 | from every state with an ID left, whatever the other threads are at, a call whose thread is left alone ends within six steps |
| LazyIds.OneGroupForAll | SDL3/src/SDL_properties.c:142-154 | without a quit, all calls that complete return one ID, but for failures before a group is installed |
| LazyIds.GetEnds | SDL3/src/SDL_hints.c:62-74 | a lazy call that runs alone returns the installed group; if there is none it makes one with the next ID, installs it and returns it |
| LazyIds.LateGetEnds | SDL3/src/SDL_hints.c:67-71 | a lazy call that comes too late destroys its own group and returns the installed one |
| Properties.TakeOut | SDL3/src/SDL_properties.c:337-340 | removing a property moves its handover, and only that, into the running call's hand |
| Properties.PutIn | SDL3/src/SDL_properties.c:341-346 | storing a property moves its handover out of the hand |
| Properties.CalledOnceEach | SDL3/src/SDL_properties.c:57-91 | once no group is left, the cleanup calls are the handovers: one each, with their own arguments |
| Properties.PropertyGroups.CreateProperties | SDL3/src/SDL_properties.c:158-204 | a new empty group under the next ID, which no group has; a group that cannot be registered uses up its ID |
| Properties.PropertyGroups.FreeProperty | SDL3/src/SDL_properties.c:57-77 | calls the cleanup of what it frees, once, with its own userdata and value |
| Properties.PropertyGroups.PrivateSetProperty | SDL3/src/SDL_properties.c:319-353 | binds the property, or cleans it up; a replaced property is cleaned up, also when the new one is then not stored |
| Properties.PropertyGroups.SetPointerPropertyWithCleanup | SDL3/src/SDL_properties.c:355-379 | whatever fails, the value handed over is bound, or its cleanup has been called when the call returns, and never both |
| Properties.PropertyGroups.ClearProperty | SDL3/src/SDL_properties.c:732-735 | drops the binding and cleans up what it held |
| Properties.PropertyGroups.SetPlainProperty | SDL3/src/SDL_properties.c:381-472 | replaces a binding by a value nobody cleans up; NULL clears it; without memory nothing changes |
| Properties.PropertyGroups.GetPointerProperty | SDL3/src/SDL_properties.c:508-540 | a value that can be read has not been cleaned up |
| Properties.PropertyGroups.CopyOneProperty | SDL3/src/SDL_properties.c:206-249 | binds the property in the destination, in place of what was there; skips what has a cleanup, changes nothing without memory, and leaves the name unbound without room; cleans up what it replaces |
| Properties.PropertyGroups.CopyProperties | SDL3/src/SDL_properties.c:251-284 | every name whose property was copied is bound as in the source, one without room is unbound, and every other name is bound as before; every handover stays accounted for |
| Properties.PropertyGroups.DestroyProperties | SDL3/src/SDL_properties.c:812-824 | removes the group and calls every cleanup it still owed |
| Properties.PropertyGroups.QuitProperties | SDL3/src/SDL_properties.c:111-135 | at the end of every run each handover has been cleaned up exactly once |
| Hints.NotifiedReaches | SDL3/src/SDL_hints.c:131-137 | the notification loop tells every listed callback and no other |
| Hints.Unlink | SDL3/src/SDL_hints.c:385-400 | the loop takes the first match out of the list and keeps the rest in order |
| Hints.DroppedIsGone | SDL3/src/SDL_hints.c:385-400 | from a list without duplicates exactly the given pair is gone |
| Hints.AnswerAfter | SDL3/src/SDL_hints.c:105-281 | when setting a hint succeeds, and what SDL_GetHint answers after each call, also when a text cannot be copied; listing watchers never changes the answer |
| Hints.Returned | SDL3/src/SDL_hints.c:166-372 | a reset returns true if and only if the hint has a record, adding a watcher if and only if it has one in the end |
| Hints.ResetUnlocks | SDL3/src/SDL_hints.c:195 | after a reset a set succeeds with every priority unless an environment variable is in its way, and its value is the answer |
| Hints.WatchesAfter | SDL3/src/SDL_hints.c:317-403 | adding lists the callback first and keeps the others, told the current value; removing takes out that one only; setting and resetting leave the list alone |
| Hints.OldNamesCount | SDL3/src/SDL_hints.c:90-103 | the video and audio driver hints, and no others, fall back to the variable's old name, and only while the new one is not set |
| Hints.TidyStep | SDL3/src/SDL_hints.c:105-213 | every call keeps the list free of duplicates, and leaves nothing stored below override priority while an environment variable is set |
| Hints.AgreementStep | SDL3/src/SDL_hints.c:119-142 | a call keeps watchers and SDL_GetHint in agreement if and only if it is neither an override to NULL over an environment variable with a lower priority stored, nor a change whose text cannot be copied, with watchers present |
| Hints.RecoveryStep | SDL3/src/SDL_hints.c:166-213 | once SDL_GetHint answers something else than NULL every watcher has been put right |
| Hints.WatchersAgree | SDL3/src/SDL_hints.c:105-403 | after any calls, whatever memory they find, there are no duplicates, and each watcher's last notified value is what SDL_GetHint answers, but for the calls that AgreementStep names |
| Hints.SilentOverride | SDL3/src/SDL_hints.c:127-130 | the input that breaks the agreement with an environment variable |
| Hints.FailedCopy | SDL3/src/SDL_hints.c:128-136 | the input that breaks it without memory for the text |
| Hints.HintTable.SetHintWithPriority | SDL3/src/SDL_hints.c:105-164 | replaces the value, tells the watchers and keeps this hint's priority as AfterSet says, whatever memory there is, and changes no other hint |
| Hints.HintTable.ResetHint | SDL3/src/SDL_hints.c:166-213 | changes this hint's entry as AfterReset says, and no other |
| Hints.HintTable.GetHint | SDL3/src/SDL_hints.c:258-281 | the environment variable, unless the hint has no variable or override priority |
| Hints.HintTable.AddHintCallback | SDL3/src/SDL_hints.c:317-372 | the callback is listed first, once, and told the current value; without room for a new record it is told and not listed |
| Hints.HintTable.RemoveHintCallback | SDL3/src/SDL_hints.c:374-403 | takes the pair out of this hint's list |
| Fractions.GCDIsGreatest | SDL3/src/SDL_utils.c:65-71 | the result divides both numbers, and every common divisor divides it |
| Fractions.MediantStep | SDL3/src/SDL_utils.c:81-98 | b*c - a*d == 1 is kept, and the mediant lies strictly inside the bounds |
| Fractions.NothingBetweenNeighbours | SDL3/src/SDL_utils.c:80-98 | no fraction with a denominator up to 1000 lies strictly between the final bounds |
| Fractions.NeighboursAreUnique | SDL3/src/SDL_utils.c:80-98 | a number has one pair of neighbouring fractions |
| Fractions.ChosenApproximates | SDL3/src/SDL_utils.c:84-110 | lowest terms, denominator from 1 to 1000, error at most 1/(1001*q), best on its side, exact if a fraction with such a denominator is |
| Fractions.FoundIsNearestUnlessMisjudged | SDL3/src/SDL_utils.c:82-110 | the result is a nearest fraction if and only if the number is not strictly between the mediant and the midpoint of its neighbours |
| Fractions.NotAlwaysNearest | SDL3/src/SDL_utils.c:80-110 | for 0.0006 the result is 0/1, though 1/1000 is nearer |
| Fractions.NumeratorsFit | SDL3/src/SDL_utils.c:81 | the sum that the search computes stays below 2000*x + 1 |
| Fractions.FractionFits | SDL3/src/SDL_utils.c:80-98 | while n/q is enclosed the numerators add up to n + 1 at most |
| Fractions.NoOverflow | SDL3/src/SDL_utils.c:81 | so no sum overflows a C int, for every single-precision number below 2^31 and every number up to a million |
| Fractions.CalculateFraction | SDL3/src/SDL_utils.c:75-110 | the loop ends for every number and returns such an approximation, and 0/1 for negative numbers; for every float below 2^31 no sum and no result overflows a C int |
| PercentDecoding.DecodingInvertsEncoding | SDL3/src/SDL_utils.c:278-334 | a text is a correct percent-encoding of some bytes if and only if it is well formed and decodes to them |
| PercentDecoding.DigitsAreDigits | SDL3/src/SDL_utils.c:301-322 | what the code takes for a digit of value v is the v-th character of 0123456789abcdef or 0123456789ABCDEF, and nothing else |
| PercentDecoding.RoundTrip | SDL3/src/SDL_utils.c:278-334 | whichever bytes are escaped, and in whichever case, decoding gives the bytes back |
| PercentDecoding.BrokenEscapeIsKept | SDL3/src/SDL_utils.c:304-312 | a percent sign without two digits is copied up to the character that is no digit |
| PercentDecoding.DecodedConcat | SDL3/src/SDL_utils.c:288-332 | decoding goes through a well-formed prefix piece by piece |
| PercentDecoding.CutEscapeIsLost | SDL3/src/SDL_utils.c:288-333 | an escape that the end of the text cuts short disappears |
| PercentDecoding.DoublePercent | SDL3/src/SDL_utils.c:304-312 | a percent sign after a percent sign is copied with it and starts no escape |
| PercentDecoding.DecodedIsNoLonger | SDL3/src/SDL_utils.c:288 | decoded text is no longer than the text |
| PercentDecoding.CopyLiterally | SDL3/src/SDL_utils.c:306-310 | copying a broken escape is right also within one buffer |
| PercentDecoding.Decode | SDL3/src/SDL_utils.c:288-334 | the loop writes the decoded text and a NUL, whether or not the buffers are one: writing and pending characters never pass the reading position |
| PercentDecoding.URIDecode | SDL3/src/SDL_utils.c:278-334 | the whole call, with its error result and both ways to give the length: what is written depends on the text alone |

## Left out

- `SDL_DestroyHashTable` and null arguments of the hash table's calls: the first is `destroy_all` before the memory is freed, the second returns at once.
- Locks: every locked section is one step; callbacks that call back into the same table, hint or group are not modelled, and neither is copying a property group to itself.
- The concrete hash functions of strings and pointers: any hash is covered; only the one for IDs is modelled.
- HashTables.HashTable.Iterate: the callback does not change the table, as the header demands.
- ChannelConverter.WriteConverter: what is printed is a program, not C text; the rounding of coefficients to nine decimals is not modelled, nor is rounding in the converter.
- ChannelTables.ConversionMatrix: the coefficients are the decimal numbers of the table, as reals.
- SdlInit.Sdl.InitSubSystem: platform code, thread IDs, error texts and subsystems that were not built; whether a subsystem's drivers come up is the same for all attempts within one call, of which there is at most one.
- SdlInit.Sdl.ShutDown: joysticks that are open with sensors of their own hold requests for the sensor subsystem like any client; that closing them releases these (SDL3/src/joystick/SDL_joystick.c:1274-1300) is not part of this method.
- SdlLaws.RunsAreDetermined: requests beyond what the 8-bit counters hold are excluded, as the assertions in the source do.
- LazyIds.GroupsEndOnce: destroying a group is one step, and what other callers do with the groups they keep is left to them; what a group holds is modelled in Properties.
- LazyIds.OneGroupForAll: a call that fails for lack of memory may return 0 before a group is installed.
- Properties: the conversions between property types, the cached string of a number, and enumeration.
- Properties.PropertyGroups.SetPlainProperty: one method stands for the setters of pointers, strings, numbers, floats and booleans; a failed copy of a string counts as missing memory.
- Hints: `SDL_ResetHints` does to every hint what `SDL_ResetHint` does to one; the environment does not change during a run.
- Hints.HintTable.AddHintCallback: when a new record finds no room, the model keeps neither the record nor the list cell; what the source still links to the released record is not modelled.
- Fractions.CalculateFraction: the arithmetic is on reals, without the rounding of single-precision floats.
- PercentDecoding.URIDecode: `SDL_URIToLocal`, its only caller, is not modelled; it compares host names.
- `SDL_MostSignificantBitIndex32`: only the portable branch.
- Other files of SDL are not part of this model.
