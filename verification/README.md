# Smart parking: verified model

A model, in Dafny, of the parking system of `Files/SmartParking.cpp`, of the web handlers of
`Files/Server.cpp` that drive it, and of the stream buffer of the vendored asio library.

* A parking system knows *places* (some of them *ghosts*, which only bend the drawn line), two-way *roads*
  and, for every real place and hour of the day, the number of free *slots*.
* A route request finds a shortest route with a priority-queue search, parks at the destination or at the last
  bookable place before it, books one slot for each hour asked for, and answers with a drawn route.
* An update request changes the capacity of a place, keeping bookings as far as the new capacity holds them,
  and writes all places back to their file.
* The stream buffer is a vector of bytes with a get area and a put area that behaves as a first-in first-out
  queue.

| file | module | content |
|---|---|---|
| `Sequences.dfy` | `Sequences` | reversal, duplicate-free lists |
| `Roads.dfy` | `Roads` | places, roads, walks, shortest walks and their pieces |
| `Distances.dfy` | `Distances` | where the search is defined, when shortest routes exist, how far places can be |
| `Search.dfy` | `Search` | the state of the search, its invariant, one lemma per kind of step, what an ended search knows |
| `Dijkstra.dfy` | `Dijkstra` | the search itself, loop by loop |
| `Display.dfy` | `Display` | the table of drawn paths and the drawn route |
| `Ledger.dfy` | `Ledger` | slots: booking, recutting, scanning for a bookable place |
| `Runs.dfy` | `Runs` | serial runs of the handlers and the ledger law |
| `Concurrent.dfy` | `Concurrent` | interleavings of route requests and the exact grant bound |
| `Text.dfy`, `Storage.dfy` | `Text`, `Storage` | formatted reading and writing, the two data files |
| `Alone.dfy` | `Alone` | a request that no other comes between ends as the serial handler says |
| `SmartParking.dfy` | `Parking` | the class `SmartParking` |
| `Restart.dfy` | `Restart` | what a run leaves in the places file and what the next start makes of it |
| `Server.dfy` | `Server` | the two handlers, runs of requests with their replies, and what an answer means end to end |
| `StreamBuffer.dfy` | `StreamBuffer` | the stream buffer on values, its runs |
| `BasicStreambuf.dfy` | `BasicStreambuf` | the class `StreamBuf`, on an array |

Run `dafny verify dfyconfig.toml` in this directory.

## What is proved

**Search.** Let no road within reach of the start have a negative weight, and let the distance of every place nearer
than INT_MAX plus the weight of any road out of it be at most INT_MAX (`Distances.SumsFit`). Then the search ends and
returns a shortest walk without repeated places or, exactly if no walk costs less than INT_MAX, the empty route.
Inside: no sum overflows, every place nearer than INT_MAX is expanded exactly once, nearest first, at its final
distance, and parents lead back to the source also over roads of weight zero, so the source's exit for a missing
parent is dead code. The first condition leaves out nothing that could be asked for: on two-way roads, which loading
always makes, a reachable place has a shortest route exactly if it holds (`Distances.ShortestExistsIff`). The second
speaks of just the sums that the search forms, which expands these places at these distances. Both hold if the number
of real places times the largest weight is below INT_MAX, and then the empty route means exactly that there is no walk
(`Distances.FitsByCount`).

**Ledger.** Over every serial run of the two handlers, on every cell (place, hour): bookings made equal bookings
standing plus bookings cut by updates; bookings plus free slots equal the capacity if and only if no update went
below the bookings it found; 0 <= free <= capacity always. A grant goes to the last stop of the route with a slot at
each hour asked for and lowers exactly these hours by one. An accepted update sets the capacity and keeps at each hour
the bookings that fit; at the end of a run the capacity is that of the last one.

**Concurrency.** Because the check and the booking are separate steps, grants can exceed the free slots: with at most
`width` requests between check and booking of a cell the excess is at most `width - 1`, and some run reaches it if the
cell has a free slot and its place is not -1; so grants then stay within the free slots in all runs exactly if `width`
is at most 1. A request that no other comes between ends exactly as the serial handler says.

**End to end.** A granted place is the bookable stop of the route that is nearest to the destination; the trimmed route
is itself a shortest route to it; its drawing is a prefix of the full drawing and projects to the trimmed route. A
system loaded from the two files answers each of any requests as is due in the state that those before it left
(`Server.Lifetime`).

**Display and storage.** Drawing the way back is drawing the way out in reverse, exactly if the table is mirrored;
deleting ghosts recovers the route, exactly if only ghosts lie between real places. Saving and loading again restores
every place up to the rounding of its coordinates and frees every slot; it restores the places as they were exactly if
all coordinates are written exactly, as those of at most six digits are, and a second time it changes nothing. A restart
after any run finds every place with the capacity it had at the end, and coordinates changed only by that rounding; it
finds all slots free exactly if some update of the run was accepted, so that the file was written, or if in the file at
the start the last line of every place gave it slots if any line did.

**Stream buffer.** In every run up to the first length error, what came out followed by what is readable is what went
in; the error comes exactly if the size asked for exceeds the maximum.

Results where the code falls short of what one would expect, kept as they are:

* A reachable place whose distance is exactly INT_MAX is reported as having no route, although no sum overflows
  (`Distances.FarIsMissed`).
* With a negative weight within reach on two-way roads no reachable place has a shortest route
  (`Distances.ShortestExistsIff`).
* A place with id -1 that is the last bookable stop counts as "no parking" (`Server.NoParkingIff`), also if another stop
  could be booked (`Server.MinusOneRefused` gives such a request on loaded files).
* A table entry with equal ends breaks the mirror property unless it reads the same both ways
  (`Display.WithPathMirrored`).
* Concurrent requests overbook (`Concurrent.GrantBoundIsReached`, `Concurrent.OverbooksIff`).
* A second line for a place can leave it with slots although it is a ghost or has no capacity
  (`Storage.LoadedIsFreshIff`).
* A failed `prepare` has moved the bytes but not the positions; it leaves the data alone for all contents exactly if
  nothing was consumed before or at least as much was consumed as is left (`StreamBuffer.ErrorKeepsDataIff`;
  `StreamBuffer.FailedPrepareLosesData` is a run of four operations after which the data change).

## Reading notes

* Lines 150-152 of `Files/SmartParking.cpp` are garbled; they are read as an empty result inside the `if`.
* Identifiers have the range of the source's 32-bit `int`. Weights, distances, capacities and slots are unbounded
  integers; for the search it is proved that no sum leaves the 32-bit range.
* The priority queue of the standard library is a multiset of pairs, its top the least pair.
* `Dijkstra.ShortestRoute` is a method over values because the source's search changes no field; the class method
  `SmartParking.Dijkstra` calls it. Its loops are methods of their own. Ghost results carry what the search knew at its
  end.
* Handlers start from parsed parameters; -1 stands for an unknown place name. The text of the places file is a field.
* In lemmas the product of a number of places and a weight is written `Weigh(n, w)`, which is `n * w`
  (`Roads.WeighIsProduct`).
* How the output library rounds a coordinate is a parameter, of which only this is assumed (`Storage.Rounds`): six
  significant digits are left alone, and rounding twice is rounding once. Ties and binary fractions are left open.
* `LoadNodes` and `LoadGraph` take the lines that reading the file yields; `Storage.ReadNodes` and `Storage.ReadRoads`
  say which these are, down to single characters.

## Model

| member | source | states |
|---|---|---|
| `Dijkstra.ShortestRoute` | Files/SmartParking.cpp:138-196 | the result is empty iff no walk over real places from src to dest costs less than INT_MAX, else a walk of least cost among all walks, without repeated places; the distances left behind are the true ones |
| `Dijkstra.Unreached` | Files/SmartParking.cpp:144-148 | exactly the known places that are not ghosts get the unreached mark |
| `Dijkstra.Top` | Files/SmartParking.cpp:159 | the top entry is a least pair of the queue |
| `Dijkstra.TryRoad` | Files/SmartParking.cpp:165-175 | looking at one road, with its sum in range, keeps the whole search invariant and relaxes that road |
| `Dijkstra.Relax` | Files/SmartParking.cpp:164-176 | after the inner loop all roads out of the expanded place are relaxed and the invariant holds |
| `Dijkstra.Explore` | Files/SmartParking.cpp:154-177 | the main loop ends, with an empty queue, the invariant, and the true distance of every place nearer than INT_MAX |
| `Dijkstra.Trace` | Files/SmartParking.cpp:183-195 | reading the parents back ends and spells a shortest walk without repetition; the missing-parent exit is dead |
| `Search.StaleDropped` | Files/SmartParking.cpp:160-162 | dropping an entry costlier than the known distance keeps the invariant |
| `Search.Expanded` | Files/SmartParking.cpp:159-162 | a current entry names a place never expanded before, at its final and so far largest distance |
| `Search.RoadSkipped` | Files/SmartParking.cpp:167-170 | a road that offers no better way counts as relaxed |
| `Search.RoadTaken` | Files/SmartParking.cpp:170-174 | recording a better way keeps distances, tree, queue and earlier relaxations intact |
| `Search.TakenIsUnsettled` | Files/SmartParking.cpp:170-171 | a better way never leads to a place already expanded, also over weight zero |
| `Search.NoOverflow` | Files/SmartParking.cpp:170-171 | every sum the search forms lies between 0 and INT_MAX |
| `Search.WalkFound` | Files/SmartParking.cpp:170-173 | a place that was reached has a walk of exactly the distance recorded |
| `Search.TopIsExact` | Files/SmartParking.cpp:157-162 | the nearest waiting place is at its true distance, against all walks of the network |
| `Search.NoWalkIsCheaper` | Files/SmartParking.cpp:157-177 | no walk reaches a place not yet expanded below the least distance waiting, nor an expanded one below its distance |
| `Search.ParentIndex` | Files/SmartParking.cpp:172 | every expanded place but the source has a parent expanded before it |
| `Search.SettledIsNear` | Files/SmartParking.cpp:154-177 | at the end expanded are exactly the places that some walk reaches for less than INT_MAX |
| `Search.ExhaustedIsExplored` | Files/SmartParking.cpp:154-181 | expanded are exactly those places, once each, nearest first, at their true distances; INT_MAX is left exactly at the others |
| `Search.TracedFurther` | Files/SmartParking.cpp:186-190 | following one parent extends the traced walk by a new place and comes nearer to the source |
| `Search.TracedIsShortest` | Files/SmartParking.cpp:192-195 | the reversed trace is a shortest walk without repetition |
| `Search.NoRouteWithoutPlaces` | Files/SmartParking.cpp:150-152 | there is no walk from or to an unknown place or a ghost |
| `Distances.ShortestExists` | Files/SmartParking.cpp:138-196 | without negative weights within reach every reachable place has a shortest route |
| `Distances.ShortestExistsIff` | Files/SmartParking.cpp:66-69 | on two-way roads a reachable place has a shortest route iff no weight within reach is negative |
| `Distances.CloseByCount` | Files/SmartParking.cpp:144-148 | every reachable place has a shortest route within (n - 1) maximal weights, n the number of real places |
| `Distances.FitsByCount` | Files/SmartParking.cpp:144-171 | n times the largest weight below INT_MAX makes all sums fit and brings every reachable place below INT_MAX |
| `Distances.FarIsMissed` | Files/SmartParking.cpp:179-181 | a place at distance exactly INT_MAX is reachable, no sum overflows, and the search counts it as unreached |
| `Roads.PiecesAreShortest` | Files/Server.cpp:186-191 | both pieces of a cut shortest route are shortest routes |
| `Distances.LaterIsNearer` | Files/SmartParking.cpp:258-266 | along a shortest route the distance left to its end never grows |
| `Roads.WayBackIsShortest` | Files/SmartParking.cpp:66-69 | on two-way roads the reversed shortest route is shortest, at equal cost |
| `Display.WithPathMirrored` | Files/SmartParking.cpp:92-96 | an entry keeps the table mirrored iff its ends differ or it is a palindrome |
| `Display.TableIsMirrored` | Files/SmartParking.cpp:90-126 | any entries with distinct ends make a table that maps (b,a) to the reverse of (a,b) |
| `Display.OffDiagonalMirrored` | Files/SmartParking.cpp:92-96 | whatever is entered, (b,a) is the reverse of (a,b) for different a and b |
| `Display.TableIsMirroredIff` | Files/SmartParking.cpp:90-126 | a table is mirrored iff what it has between a place and itself reads the same both ways |
| `Display.TableHoldsLast` | Files/SmartParking.cpp:92-126 | the last entry for two places is found as entered from its first place to its second, and reversed the other way |
| `Display.TableHoldsOnly` | Files/SmartParking.cpp:92-126 | two places are a key iff some entry is about them |
| `Display.EntryIsDrawn` | Files/SmartParking.cpp:204-221 | two places with an entry are drawn with its ghosts between them, in the order of the direction |
| `Display.TableHoldsKnown` | Files/SmartParking.cpp:90-126 | a table built from known places holds only known places |
| `Display.TableHoldsGhosts` | Files/SmartParking.cpp:90-126 | a table built from ghosts holds only known ghosts |
| `Display.DrawnInPieces` | Files/SmartParking.cpp:204-221 | a drawn route splits at every stop |
| `Display.DrawnReversed` | Files/SmartParking.cpp:198-224 | with a table mirrored along a route the reversed route is drawn in reverse |
| `Display.DrawnReversedIff` | Files/SmartParking.cpp:198-224 | all routes are drawn alike both ways iff the table is mirrored |
| `Display.DrawnPrefix` | Files/SmartParking.cpp:204-221 | the drawing of a prefix is a prefix of the drawing |
| `Display.DrawnProjects` | Files/SmartParking.cpp:198-224 | deleting what is not real from a drawing gives back the route |
| `Display.DrawnProjectsIff` | Files/SmartParking.cpp:198-224 | that holds for all real routes iff nothing real lies between two real places |
| `Display.DrawnIsInjective` | Files/SmartParking.cpp:198-224 | different real routes have different drawings |
| `Display.DrawnIsKnown` | Files/Server.cpp:196-197 | every drawn id is a known place, so rendering inserts none |
| `Ledger.AvailableIff` | Files/SmartParking.cpp:226-242 | bookable iff 0 <= start < end <= 24, the place is known and no ghost, and each of the hours has a stored count above zero |
| `Ledger.ReserveCell` | Files/SmartParking.cpp:244-254 | a booking lowers each covered cell that has a slot by one and no other cell |
| `Ledger.ReserveTidy` | Files/SmartParking.cpp:244-254 | bookings keep 0 <= free <= capacity |
| `Ledger.UpdateCell` | Files/SmartParking.cpp:271-282 | an update keeps min(bookings, new capacity) bookings at each hour and leaves other places alone |
| `Ledger.UpdatedSlots` | Files/SmartParking.cpp:278-281 | an update stores for each of the 24 hours the new capacity less the bookings kept, and leaves the rows of other places alone |
| `Ledger.UpdateTidy` | Files/SmartParking.cpp:271-282 | updates keep 0 <= free <= capacity and complete the hours |
| `Ledger.UpdatesKeepLeast` | Files/SmartParking.cpp:271-282 | after updates in a row the bookings kept are the least of the first bookings and all capacities |
| `Ledger.LastAvailableFinds` | Files/SmartParking.cpp:256-269 | the backward scan finds the last bookable stop |
| `Runs.ApplyKeepsPlaces` | Files/Server.cpp:142-182 | a request keeps the key set and everything but capacities of the places |
| `Runs.RunKeepsPlaces` | Files/Server.cpp:142-252 | so does every run |
| `Runs.RunKeepsTidy` | Files/Server.cpp:142-252 | every run keeps 0 <= free <= capacity at all 24 hours |
| `Runs.GrantedIsAvailable` | Files/Server.cpp:168-182 | what is granted is bookable, and is the destination or a stop of the route |
| `Runs.ApplyCell` | Files/Server.cpp:168-182 | one request changes the bookings standing on a cell by what it books less what it cuts |
| `Runs.UpdateTakesEffect` | Files/Server.cpp:237-252 | an update is applied in full iff the capacity is not negative and the place is known and real: capacity, bookings kept, and nothing else; any other changes nothing |
| `Runs.CapacityIsKept` | Files/SmartParking.cpp:275 | a place that no update of the run sets ends as it was |
| `Runs.CapacityIsLast` | Files/SmartParking.cpp:275 | at the end of a run the capacity of a place is that of the last update that set it |
| `Runs.LedgerBalances` | Files/SmartParking.cpp:244-285 | bookings made = bookings standing + bookings cut, on every cell of every run |
| `Runs.CutIsZeroIff` | Files/SmartParking.cpp:278-281 | nothing is cut iff no update went below the bookings it found |
| `Runs.BooksCloseIff` | Files/SmartParking.cpp:244-285 | from a fresh load, bookings + free slots = capacity iff no update cut bookings |
| `Concurrent.RunKeepsCell` | Files/Server.cpp:168-182 | in every interleaving the free slots are the initial ones less the grants, never below zero |
| `Concurrent.GrantsAreBounded` | Files/Server.cpp:168-182 | with at most `width` requests between check and booking, grants stay within capacity + width - 1 and slots in range |
| `Concurrent.SerialNeverOverbooks` | Files/Server.cpp:168-182 | one request at a time books exactly what it grants |
| `Concurrent.GrantBoundIsReached` | Files/Server.cpp:259 | the bound is exact: at every place but -1 some interleaving reaches it |
| `Concurrent.OverbooksIff` | Files/Server.cpp:168-182 | grants stay within the free slots in all interleavings iff at most one request is between check and booking |
| `Concurrent.NeverAtMinusOne` | Files/Server.cpp:150-180 | no interleaving holds or books a place with id -1 |
| `Alone.AloneEndsAs` | Files/Server.cpp:162-182 | in every run with one request, once it is answered, the place granted or refused and the slots are those of the serial handler |
| `Alone.AloneEnds` | Files/Server.cpp:162-182 | from every start every request can run alone to that end |
| `Text.IntRoundTrip` | Files/SmartParking.cpp:293-295 | behind any blanks an integer is read back from its text, with what follows untouched, iff it fits 32 bits |
| `Text.PlusRead` | Files/SmartParking.cpp:36 | a leading plus sign is accepted |
| `Text.BlanksSkipped` | Files/SmartParking.cpp:36 | leading blanks are skipped, and exactly the six characters named are blanks |
| `Text.DigitsCount` | Files/SmartParking.cpp:293-295 | a further digit makes the value ten times the old one plus that digit |
| `Text.WordRoundTrip` | Files/SmartParking.cpp:294 | so is a name without blanks |
| `Text.DecimalRoundTrip` | Files/SmartParking.cpp:296-297 | so is a coordinate in plain decimal notation |
| `Text.DecimalRead` | Files/SmartParking.cpp:36 | digits on one side of the point are enough, and zeros at the end of the fraction do not count |
| `Storage.ReadNode` | Files/SmartParking.cpp:36-44 | a line read gives a place with a name without blanks and values in range, and reading advances |
| `Storage.NodeRead` | Files/SmartParking.cpp:36-44 | a line of id, name, capacity, x, y and flag in this order is read field by field, whatever blanks separate them; only flag 1 makes a ghost |
| `Storage.LineSpelled` | Files/SmartParking.cpp:291-300 | the line written is id, name, capacity, x, y and 0 or 1, separated by single spaces and ended by a line break |
| `Storage.NodesRoundTrip` | Files/SmartParking.cpp:291-300 | the lines written are read back one for one |
| `Storage.LotOfAt` | Files/SmartParking.cpp:36-52 | a loaded place is its last line, its slots those of its last line that gives it any |
| `Storage.LoadedIsFreshIff` | Files/SmartParking.cpp:23-56 | loading gives slots, all free, to exactly the real places with a capacity iff no last line takes away what an earlier one gave |
| `Storage.InOrderLists` | Files/SmartParking.cpp:291 | iteration in key order lists each place once |
| `Storage.InOrderIsSorted` | Files/SmartParking.cpp:291 | places are written in ascending order of their ids |
| `Storage.SaveLoadRoundTrip` | Files/SmartParking.cpp:287-303 | saving and loading restores all places up to the rounding of coordinates and fills 24 slots of each real place that has a capacity |
| `Storage.SaveLoadRestoresIff` | Files/SmartParking.cpp:296-297 | it restores them exactly iff every coordinate is written exactly, as those of at most six significant digits are |
| `Storage.ReloadIsStable` | Files/SmartParking.cpp:23-56 | whatever was loaded, after one saving and loading every further one changes nothing |
| `Storage.EdgeRead` | Files/SmartParking.cpp:66 | a line names two places, then the weight, whatever blanks separate them; reading goes on behind it |
| `Storage.RoadsRead` | Files/SmartParking.cpp:64-69 | a file of such lines is read back one for one |
| `Storage.RoadsLoaded` | Files/SmartParking.cpp:58-72 | the graph loaded from such a file has exactly the roads it lists, each at both ends |
| `Storage.RoadOfHolds` | Files/SmartParking.cpp:66-69 | the graph has exactly the roads listed, each at both ends |
| `Storage.LoadedIsSymmetric` | Files/SmartParking.cpp:58-72 | a loaded graph is symmetric |
| `Parking.SmartParking.constructor` | Files/SmartParking.cpp:16-21 | places, slots and roads are those of the two files; the table has the last entry for each two places, from both sides, and nothing else |
| `Parking.SmartParking.LoadNodes` | Files/SmartParking.cpp:23-56 | places and slots become those the lines list, later lines replacing earlier ones |
| `Parking.SmartParking.LoadGraph` | Files/SmartParking.cpp:58-72 | the roads become those listed, in both directions |
| `Parking.SmartParking.AddPath` | Files/SmartParking.cpp:92-96 | the entry is found from its ends and reversed from the other side, no other pair changes, and the table stays mirrored iff the ends differ or it is a palindrome |
| `Parking.SmartParking.BuildVisualPaths` | Files/SmartParking.cpp:90-126 | the table has the last entry for each two places, as entered and reversed from the other side, and no other keys |
| `Parking.SmartParking.Dijkstra` | Files/SmartParking.cpp:138-196 | shortest route over the given graph or, iff no walk costs less than INT_MAX, the empty one |
| `Parking.SmartParking.BuildVisualRoute` | Files/SmartParking.cpp:198-224 | the loops compute the drawn route the display lemmas are about |
| `Parking.SmartParking.AvailableAtTime` | Files/SmartParking.cpp:226-242 | true iff 0 <= start < end <= 24, the place is known and no ghost, and each of the hours has a stored count above zero |
| `Parking.SmartParking.ReserveSlot` | Files/SmartParking.cpp:244-254 | every covered cell that has a slot loses one, no other cell changes, no entry is added |
| `Parking.SmartParking.FallbackParking` | Files/SmartParking.cpp:256-269 | a bookable stop, the one that `Ledger.LastAvailableFinds` shows to be the last, or -1 |
| `Parking.SmartParking.UpdateCapacity` | Files/SmartParking.cpp:271-285 | at each hour min(bookings, new capacity) bookings are kept; the file is rewritten iff the place is known |
| `Parking.SmartParking.SaveNodes` | Files/SmartParking.cpp:287-303 | the file becomes the lines of all places in key order |
| `Server.TrimAt` | Files/Server.cpp:187-191 | the route up to the first stop at the place |
| `Server.TrimmedIsPrefix` | Files/Server.cpp:187-191 | trimming at a first occurrence cuts there |
| `Server.FindParking` | Files/Server.cpp:162-175 | the destination if it is bookable, else a bookable stop or -1; fallback iff the destination is not bookable |
| `Server.HandleRoute` | Files/Server.cpp:130-215 | the reply and the new state are those of the event with the route the search found; every drawn id is known, so rendering inserts no place |
| `Server.Render` | Files/Server.cpp:195-202 | one point for each drawn id, with x, y and ghost flag of that place |
| `Server.ErrorsIff` | Files/Server.cpp:142-160 | bad hours, unknown names and missing route are each reported exactly in their case, the last iff no walk to dest costs less than INT_MAX |
| `Server.HandleUpdate` | Files/Server.cpp:218-257 | each error reply exactly in its case, with nothing changed; otherwise the capacity is set, each hour keeps the bookings that fit, other places and rows stay, and the file is rewritten |
| `Server.UpdateErrorsIff` | Files/Server.cpp:231-250 | negative capacity, unknown place and ghost are each reported exactly in their case |
| `Server.ServeOne` | Files/Server.cpp:129-257 | one request of either kind is one event of the ledger, gets the reply due in the state it finds, and rewrites the file iff it is an accepted update |
| `Server.ServedFurther` | Files/Server.cpp:129-259 | one request more extends a served run |
| `Server.Serve` | Files/Server.cpp:129-259 | requests served in turn form a run of the ledger in which every route is the search's, the i-th reply is the one due in the state before it, and the file is that of the last accepted update |
| `Server.ServableAlike` | Files/SmartParking.cpp:138-196 | runs do not change where the search is defined: it sees only ids, ghost flags and roads |
| `Server.FilesFit` | Files/SmartParking.cpp:58-72 | files with n real places and weights within 0..W between them, n * W below INT_MAX, can serve every request and find every reachable place |
| `Server.Live` | Files/SmartParking.cpp:16-21 | a system loaded from the files serves any requests as a run of the ledger, with the replies and the file that are due |
| `Server.Lifetime` | Files/SmartParking.cpp:16-21 | from the files through any requests to a new start: replies and final state are those of the run, the new system has the same roads and table, the places of the end up to rounding, and all slots free iff an update was saved or the file was clean |
| `Server.GrantedIsLast` | Files/Server.cpp:168-193 | the place granted is the last bookable stop; fallback is reported iff it is not the destination |
| `Server.GrantEndToEnd` | Files/Server.cpp:168-193 | no bookable stop is nearer to the destination, the trimmed route is shortest, its drawing is a prefix of the full one and projects to it |
| `Server.NoParkingIff` | Files/Server.cpp:177-180 | refusal iff the last real stop with a stored slot at each hour asked for, if there is one, has id -1 |
| `Server.ParkedIff` | Files/Server.cpp:168-182 | the place granted is exactly the last real stop with a stored slot at each hour asked for |
| `Server.GrantTakesSlots` | Files/Server.cpp:182 | a grant finds a slot at each hour asked for, takes one from each, and leaves everything else as it was |
| `Server.MinusOneRefused` | Files/Server.cpp:177-180 | a loaded state and a searched route on which two stops are bookable, answered with no parking |
| `Server.RouteFrame` | Files/Server.cpp:142-182 | a grant lowers exactly the asked hours of its place by one; any other answer changes nothing |
| `Server.WayBack` | Files/SmartParking.cpp:198-224 | on loaded roads and any table the way back of a route without repetition is the reversed route, shortest, at equal cost and drawn in reverse |
| `Restart.FileIsSaved` | Files/SmartParking.cpp:284 | after a run the file holds the places of its end if an update was accepted, else what it held before |
| `Restart.RestartForgetsBookings` | Files/SmartParking.cpp:23-56 | loading the file a run leaves gives the places of its end, rounded iff saved, and all slots free iff an update was saved or the first file was clean |
| `Restart.PlacesAfterKeep` | Files/SmartParking.cpp:287-303 | the restarted places differ from those at the end in coordinates only, and not at all iff nothing was saved or all coordinates are written exactly |
| `Restart.LoadedIsTidyIff` | Files/SmartParking.cpp:23-56 | loading ends with every slot free and in range iff the file is clean and no real place ends with a negative capacity |
| `StreamBuffer.InitialIs` | Files/asio/asio-1.36.0/include/asio/basic_streambuf.hpp:131-141 | a new buffer has no data and room for min(maximum, 128) bytes, all zero |
| `StreamBuffer.ReservedIff` | Files/asio/asio-1.36.0/include/asio/basic_streambuf.hpp:308-346 | reserving fails iff size + n exceeds the maximum; else it keeps the data, changes nothing if there is room, and otherwise moves the data to the start and enlarges the vector just as far as needed |
| `StreamBuffer.WrittenKeeps` | Files/asio/asio-1.36.0/include/asio/basic_streambuf.hpp:214-219 | writing into the prepared area leaves the data alone |
| `StreamBuffer.CommittedAppends` | Files/asio/asio-1.36.0/include/asio/basic_streambuf.hpp:233-238 | commit moves the first min(n, room) bytes of the area to the data |
| `StreamBuffer.CommittedLayout` | Files/asio/asio-1.36.0/include/asio/basic_streambuf.hpp:233-238 | the get area then ends where the data end |
| `StreamBuffer.ConsumedDrops` | Files/asio/asio-1.36.0/include/asio/basic_streambuf.hpp:247-254 | consume drops the first min(n, size) bytes |
| `StreamBuffer.ConsumedLayout` | Files/asio/asio-1.36.0/include/asio/basic_streambuf.hpp:247-254 | consume opens the whole get area and moves its start by min(n, size) |
| `StreamBuffer.UnderflowedKeeps` | Files/asio/asio-1.36.0/include/asio/basic_streambuf.hpp:263-274 | underflow changes neither data nor area, and the get area then ends where the data end |
| `StreamBuffer.OverflowedAppends` | Files/asio/asio-1.36.0/include/asio/basic_streambuf.hpp:283-306 | overflow appends its byte; it fails iff the data fill the maximum |
| `StreamBuffer.OverflowEnlarges` | Files/asio/asio-1.36.0/include/asio/basic_streambuf.hpp:287-297 | a full area is enlarged by 128 bytes or by as many as the maximum still allows, any other is left as it is |
| `StreamBuffer.SendAppends` | Files/asio/asio-1.36.0/include/asio/basic_streambuf.hpp:214-238 | prepare, write and commit append all the data if they fit |
| `StreamBuffer.StepIsFifo` | Files/asio/asio-1.36.0/include/asio/basic_streambuf.hpp:214-346 | every operation keeps the layout, acts as a queue operation and fails iff too long |
| `StreamBuffer.RunIsFifo` | Files/asio/asio-1.36.0/include/asio/basic_streambuf.hpp:131-346 | in every run up to the first error, bytes out followed by the data are the bytes in |
| `StreamBuffer.ReadSizeInRange` | Files/asio/asio-1.36.0/include/asio/basic_streambuf.hpp:353-359 | neither difference underflows; the size is within both limits, and below them it is exactly the larger of 512 and the free room of the vector |
| `StreamBuffer.ReadSizeIsSafe` | Files/asio/asio-1.36.0/include/asio/basic_streambuf.hpp:353-359 | in every reachable state room of the read size can be prepared |
| `StreamBuffer.ErrorKeepsDataIff` | Files/asio/asio-1.36.0/include/asio/basic_streambuf.hpp:321-339 | a failed reservation keeps all data iff nothing was consumed or no more is left than was consumed |
| `StreamBuffer.AfterErrorMoves` | Files/asio/asio-1.36.0/include/asio/basic_streambuf.hpp:321-339 | after the failure the vector starts with a copy of the data and is the same behind that |
| `StreamBuffer.FailedPrepareLosesData` | Files/asio/asio-1.36.0/include/asio/basic_streambuf.hpp:308-346 | a run of four operations after which a failing prepare changes the data |
| `BasicStreambuf.StreamBuf.constructor` | Files/asio/asio-1.36.0/include/asio/basic_streambuf.hpp:131-141 | an empty buffer with room for min(maximum, 128) bytes |
| `BasicStreambuf.StreamBuf.Reserve` | Files/asio/asio-1.36.0/include/asio/basic_streambuf.hpp:308-346 | the array and offsets become those of the value model; on failure the bytes are moved and nothing else |
| `BasicStreambuf.StreamBuf.MoveToStart` | Files/asio/asio-1.36.0/include/asio/basic_streambuf.hpp:322-326 | the overlapping move copies the get area to the start |
| `BasicStreambuf.StreamBuf.Resize` | Files/asio/asio-1.36.0/include/asio/basic_streambuf.hpp:334 | a longer array with the old bytes, zeros behind and enough capacity |
| `BasicStreambuf.StreamBuf.Prepare` | Files/asio/asio-1.36.0/include/asio/basic_streambuf.hpp:214-219 | succeeds iff size + n is within the maximum, then the data are unchanged and the area has room |
| `BasicStreambuf.StreamBuf.Commit` | Files/asio/asio-1.36.0/include/asio/basic_streambuf.hpp:233-238 | the first min(n, room) bytes of the area are appended to the data |
| `BasicStreambuf.StreamBuf.Consume` | Files/asio/asio-1.36.0/include/asio/basic_streambuf.hpp:247-254 | the first min(n, size) bytes of the data are dropped |
| `BasicStreambuf.StreamBuf.Write` | Files/asio/asio-1.36.0/include/asio/basic_streambuf.hpp:214-219 | filling the prepared area changes the start of the area and no data |
| `BasicStreambuf.StreamBuf.Underflow` | Files/asio/asio-1.36.0/include/asio/basic_streambuf.hpp:263-274 | returns the first byte of the data, or end of file iff there are none |
| `BasicStreambuf.StreamBuf.Overflow` | Files/asio/asio-1.36.0/include/asio/basic_streambuf.hpp:283-306 | fails iff the data fill the maximum; otherwise its byte is appended |
| `BasicStreambuf.StreamBuf.ReadSizeHelper` | Files/asio/asio-1.36.0/include/asio/basic_streambuf.hpp:353-359 | a size within the limit for which room can be prepared; below both limits it is exactly the larger of 512 and the free room of the vector |
| `BasicStreambuf.StreamBuf.Perform` | Files/asio/asio-1.36.0/include/asio/basic_streambuf.hpp:214-346 | one operation on the array does what it does to the value and fails exactly when that does |
| `BasicStreambuf.StreamBuf.Drive` | Files/asio/asio-1.36.0/include/asio/basic_streambuf.hpp:131-346 | a run on a new array ends as the run on values, and what came out followed by the data is what went in |

## Left out

- `Dijkstra.ShortestRoute`: excluded are starts with a negative weight within reach, where by `Distances.ShortestExistsIff` no reachable place has a shortest route on two-way roads, and starts from which the source would form a sum above INT_MAX, which is undefined there.
- `Parking.SmartParking.Dijkstra`: the same starts are excluded.
- `Storage.SaveLoadRoundTrip`: numbers with exponents; where the source would write one, the model writes the same value without.
- `Server.HandleRoute`: query parsing, the lookup of names, and the reply as JSON beyond the points of the path; unknown ids in the table of drawn paths are excluded, since rendering them would insert new places, and so are the starts named for the search.
- `Server.Serve`: the same requests are excluded; an update request without both parameters is covered by `Server.HandleUpdate` only.
- `Ledger.UpdateCell`: capacities and slots are unbounded integers; while 0 <= free <= capacity holds no difference of them leaves the 32-bit range.
- `Concurrent.GrantsAreBounded`: concurrent updates, and data races below the level of atomic checks and bookings.
- `BasicStreambuf.StreamBuf.Commit`: the narrowing of `n` to `int` for sizes above INT_MAX.
- `BasicStreambuf.StreamBuf.Consume`: overflow of the address sum for sizes near the end of the address range.
- Login, registration, the start page and the list of places: file scans and output only.
- The transport graph, which is loaded but never searched, and the concrete entries of the table of drawn paths.
- Allocators, putback and the `basic_streambuf_ref` adapter of the stream buffer, and the rest of asio.
- Operations on a stream buffer after a length error, beyond what the error leaves behind.
