# ADS assignments: trains, traffic violations, Spotify charts, elections and maze graphs

This project models the five assignments of an Algorithms and Data Structures
course. The model is in Dafny and the proofs are about that model.

- **Trains** (`wagon.dfy`, `train.dfy`). Wagons are doubly linked through
  `nextWagon` and `previousWagon`, and a train holds its first wagon. The
  model covers the walks along a wagon sequence: last wagon, sequence length,
  seat and weight totals, lookup by position and id. It also covers attaching
  and detaching tails and attaching to the rear of a train.
- **Traffic tracker** (`ordered_list.dfy`, `violation.dfy`,
  `detection.dfy`, `cars.dfy`, `traffic_tracker.dfy`).
  - An `OrderedArrayList` keeps a sorted prefix of `nSorted` items.
  - It has binary searches that fall back to a linear search, and a `merge`
    that folds a new item into a match or appends it.
  - Detections are parsed from text lines and checked against the purple
    environmental zone rules. Violations are merged per car and city.
  - The tracker computes fines and lists the top violations.
- **Spotify charts** (`song.dfy`, `song_comparator.dfy`, `sorter.dfy`).
  - A song has streams per country, and two chart orders rank songs.
  - Three sorters work in place on arrays: the selection, insertion and bubble
    sort; quicksort; and the partial heap sort that sorts only the top
    `numTops` items.
- **Elections** (`election.dfy`). Lookups over the parties, constituencies and
  polling stations of an election:
  - parties by id;
  - all candidates;
  - candidates that share a name;
  - polling stations in a zip-code range;
  - vote totals per party;
  - a ranked list of results.
- **Maze graphs** (`graph.dfy`, `graph_search.dfy`, `graph_traversal.dfy`,
  `dijkstra.dfy`). A graph is given by the neighbours of each vertex. The
  model covers:
  - collecting all vertices reachable from a start;
  - rendering the adjacency list;
  - depth-first search for a path, and breadth-first search listing the vertices it takes off its queue;
  - Dijkstra's shortest path over a minimum spanning tree of `MSTNode`s.

The shared modules are:
- `ordering.dfy`: comparators and an insertion-sort reference `Sort`;
- `strings.dfy`: Java's `String.compareTo`, `trim`, `split(",")` and integer rendering;
- `sums.dfy`: sums over sequences;
- `wrappers.dfy`: `Option`, the `Outcome` of a call that may throw, and the Java exceptions.

How Java constructs are modelled:
- A Java `null` in an argument or result is `Option.None`, or a nullable class reference `Wagon?`.
- An exception is a `thrown` or `Outcome` result.
- A `HashSet` or `HashMap` iterated in its unspecified order is a `seq` in the graph's adjacency.
  Elsewhere it is a loop that picks any remaining key.

A method that walks a linked wagon sequence takes a ghost `chain`. The chain
lists the wagons it will visit and is the witness that the walk ends. A
method on a graph takes the graph as a `map` from a vertex to its
neighbours. Edge weights are a function into `nat`.

## Model

| member | source | states |
|---|---|---|
| Wagons.Wagon.constructor | Assignment1/src/main/java/models/Wagon.java:18-20 | a new wagon has the given id and kind and no neighbours |
| Wagons.Wagon.GetLastWagonAttached | Assignment1/src/main/java/models/Wagon.java:48-62 | returns the last wagon of the chain from this wagon, which has no successor; it is this wagon when nothing follows |
| Wagons.Wagon.GetSequenceLength | Assignment1/src/main/java/models/Wagon.java:68-81 | as written: 1 plus the number of freight wagons other than the last in the chain |
| Wagons.Wagon.SequenceLength | Assignment1/src/main/java/models/Wagon.java:64-67 | the documented length: the number of wagons from this one to the end of its tail |
| Wagons.SequenceLengthAsWritten | Assignment1/src/main/java/models/Wagon.java:64-81 | the written count never exceeds the length and equals it exactly when every wagon before the last is a freight wagon |
| Wagons.FreightCountFull | Assignment1/src/main/java/models/Wagon.java:72-75 | a sequence has as many freight wagons as wagons exactly when all its wagons are freight wagons |
| Wagons.ChainLinks | Assignment1/src/main/java/models/Wagon.java:14-16 | along a chain exactly the last wagon lacks a successor; in a connected chain whose head has no predecessor, exactly the head lacks a predecessor |
| Wagons.Wagon.AttachTail | Assignment1/src/main/java/models/Wagon.java:94-109 | as written: throws IllegalState exactly when this wagon has a predecessor or the tail has a successor, changing nothing; otherwise links the two both ways |
| Wagons.Wagon.AttachTailChecked | Assignment1/src/main/java/models/Wagon.java:83-93 | throws IllegalState exactly when this wagon already pulls a wagon or the tail is already attached in front; otherwise links both ways and keeps a connected set connected |
| Wagons.AttachTailBreaksConnection | Assignment1/src/main/java/models/Wagon.java:98-104 | attaching a free wagon to a wagon that already pulls a tail passes the written guards and breaks the connection invariants |
| Wagons.Wagon.DetachTail | Assignment1/src/main/java/models/Wagon.java:111-139 | returns the former successor (null when none, with nothing changed); afterwards neither side links to the other, and a connected set stays connected |
| Trains.Train.constructor | Assignment1/src/main/java/models/Train.java:14-18 | a new train has the given engine capacity, origin and destination and no wagons |
| Trains.TrainKinds | Assignment1/src/main/java/models/Train.java:20-46 | a train has wagons exactly when its chain is non-empty, is never both a passenger and a freight train, and is one of the two exactly when it has wagons |
| Trains.Train.SetFirstWagon | Assignment1/src/main/java/models/Train.java:56-63 | the given wagon, or null, becomes the first wagon |
| Trains.Train.GetLastWagonAttached | Assignment1/src/main/java/models/Train.java:79-91 | a NullPointerException exactly for an empty train; otherwise the last wagon of the train's chain, which has no successor |
| Trains.Train.GetTotalNumberOfSeats | Assignment1/src/main/java/models/Train.java:93-109 | the sum of the seats of the passenger wagons along the chain |
| Trains.FreightTrainHasNoSeats | Assignment1/src/main/java/models/Train.java:93-109 | a train of freight wagons has 0 seats and no wagon at any passenger position |
| Trains.SeatsWithoutPassengers | Assignment1/src/main/java/models/Train.java:93-96 | a sequence of freight wagons has no seats and no passenger wagons |
| Trains.Train.GetTotalMaxWeight | Assignment1/src/main/java/models/Train.java:117-129 | as written: a ClassCastException as soon as the chain holds a passenger wagon, otherwise 0 |
| Trains.Train.TotalMaxWeight | Assignment1/src/main/java/models/Train.java:111-116 | the documented total: the sum of the maximum weights of the freight wagons, which is 0 for a train of passenger wagons |
| Trains.WeightWithoutFreight | Assignment1/src/main/java/models/Train.java:111-116 | a sequence of passenger wagons has freight weight 0 |
| Trains.Train.FindWagonAtPosition | Assignment1/src/main/java/models/Train.java:137-153 | returns the passenger wagon at the given index among the passenger wagons, or null when there is none |
| Trains.NthPassengerIndexes | Assignment1/src/main/java/models/Train.java:137-153 | the wagon the position walk finds is the element at that index of the passenger wagons, or null exactly when the index is out of range |
| Trains.Passengers | Assignment1/src/main/java/models/Train.java:142 | the passenger wagons of a sequence are members of it, at most as many |
| Trains.Train.FindWagonById | Assignment1/src/main/java/models/Train.java:161-177 | as written: the same walk as the position lookup, treating the id as a passenger index |
| Trains.FindWagonByIdMisses | Assignment1/src/main/java/models/Train.java:161-177 | a train of one passenger wagon with a non-zero id does not find that wagon by its id |
| Trains.Train.FindWagonWithId | Assignment1/src/main/java/models/Train.java:155-160 | the documented lookup: a wagon of the chain with that id, and null exactly when no wagon in the chain has it |
| Trains.Train.AttachToRear | Assignment1/src/main/java/models/Train.java:222-242 | always reports false; an empty train takes the wagon as its first; otherwise, when the engine can pull wagons, the last wagon's successor becomes the wagon and nothing else changes |
| Trains.Train.AttachToRearChecked | Assignment1/src/main/java/models/Train.java:179-221 | true exactly when the documented check allows the attachment: the head is of the train's kind and not yet in the train, and the engine pulls the train's wagons and the sequence together; then the train is its wagons followed by the sequence, the head is detached from its former predecessor and linked back to the former last wagon; when false, the train, the head, its predecessor and the last wagon are unchanged |
| Trains.Train.LinkAtRear | Assignment1/src/main/java/models/Train.java:214-221 | a free sequence sharing no wagon with the train follows its last wagon, linked both ways, or becomes the train when it is empty |
| Trains.Train.HoldsAndCounts | Assignment1/src/main/java/models/Train.java:188-211 | the walk along the train tells whether it holds the wagon and how many wagons it has |
| Trains.AttachToRearMisreports | Assignment1/src/main/java/models/Train.java:222-242 | an empty train with room for a free wagon takes it as its first wagon and still answers false, though the documented check allows the attachment |
| Trains.ChainPositionsDiffer | Assignment1/src/main/java/models/Wagon.java:3-11 | two positions of a sequence that ends hold different wagons |
| Trains.ChainDistinct | Assignment1/src/main/java/models/Wagon.java:3-11 | a sequence that ends never repeats a wagon |
| Trains.TailWagonOutside | Assignment1/src/main/java/models/Wagon.java:14-16 | under the connection invariants and the train invariant, each wagon of a sequence whose head is not in the train lies outside the train |
| Trains.TailOutsideTrain | Assignment1/src/main/java/models/Wagon.java:14-16 | such a sequence shares no wagon with the train |
| Trains.PredecessorOutside | Assignment1/src/main/java/models/Wagon.java:14-16 | the predecessor of a head outside the train belongs neither to the train nor to the head's own sequence |
| Trains.RearChain | Assignment1/src/main/java/models/Train.java:229-236 | a chain ending in a link to the head of another chain continues into that chain |
| Trains.Train.InsertAtPosition | Assignment1/src/main/java/models/Train.java:293-297 | always reports false |
| Trains.Train.MoveOneWagon | Assignment1/src/main/java/models/Train.java:310-314 | always reports false |
| Trains.Train.SplitAtPosition | Assignment1/src/main/java/models/Train.java:327-331 | always reports false |
| OrderedLists.Inserted | Assignment2/src/main/java/models/OrderedArrayList.java:47-52 | inserting at an index shifts the later items up by one and puts the element at the index |
| OrderedLists.Removed | Assignment2/src/main/java/models/OrderedArrayList.java:54-60 | removing at an index shifts the later items down by one |
| OrderedLists.RemoveInserted | Assignment2/src/main/java/models/OrderedArrayList.java:47-60 | removing at the index just inserted at gives back the list |
| OrderedLists.InsertRemoved | Assignment2/src/main/java/models/OrderedArrayList.java:47-60 | re-inserting the removed item at its index gives back the list |
| OrderedLists.SortedAfterRemoval | Assignment2/src/main/java/models/OrderedArrayList.java:54-60 | removing an item from the sorted section leaves the shorter section sorted |
| OrderedLists.SortedAfterReplace | Assignment2/src/main/java/models/OrderedArrayList.java:198-201 | replacing a matched item by a merger that keeps the comparator place keeps the sorted section sorted |
| OrderedLists.OrderedArrayList.constructor | Assignment2/src/main/java/models/OrderedArrayList.java:24-28 | a new list is empty, nothing is sorted and the representation invariant holds |
| OrderedLists.OrderedArrayList.Sort | Assignment2/src/main/java/models/OrderedArrayList.java:42-46 | the list becomes its sorted permutation and the whole list counts as sorted |
| OrderedLists.OrderedArrayList.Add | Assignment2/src/main/java/models/OrderedArrayList.java:47-52 | IndexOutOfBounds exactly when the index is outside 0..size, changing nothing; otherwise the element is inserted and the sorted section is cut back to the index when the index falls inside it; the invariant is kept |
| OrderedLists.OrderedArrayList.Append | Assignment2/src/main/java/models/OrderedArrayList.java:195 | the element goes at the end and the sorted section is unchanged |
| OrderedLists.OrderedArrayList.RemoveAt | Assignment2/src/main/java/models/OrderedArrayList.java:54-60 | IndexOutOfBounds outside the list; otherwise returns the removed item, shifts the rest and shrinks the sorted section when the index lay in it; the invariant is kept |
| OrderedLists.OrderedArrayList.IndexOfByIterativeBinarySearch | Assignment2/src/main/java/models/OrderedArrayList.java:92-131 | returns an index whose item compares equal to the search item, or -1 exactly when no item of the list does |
| OrderedLists.OrderedArrayList.IndexOfByRecursiveBinarySearch | Assignment2/src/main/java/models/OrderedArrayList.java:134-146 | returns an index whose item compares equal, and -1 exactly when no item does, for a lawful comparator |
| OrderedLists.OrderedArrayList.RecursiveBinarySearch | Assignment2/src/main/java/models/OrderedArrayList.java:148-164 | a found index matches; -1 means no match in the unsorted section, and when the range brackets the item no match anywhere |
| OrderedLists.OrderedArrayList.LinearSearch | Assignment2/src/main/java/models/OrderedArrayList.java:166-174 | returns the first matching index of the unsorted section, or -1 exactly when it has none |
| OrderedLists.BracketRaise | Assignment2/src/main/java/models/OrderedArrayList.java:110-112 | in a sorted section, an item less than the search item and everything before it can be ruled out |
| OrderedLists.BracketLower | Assignment2/src/main/java/models/OrderedArrayList.java:113-115 | in a sorted section, an item greater than the search item and everything after it can be ruled out |
| OrderedLists.OrderedArrayList.IndexOfByBinarySearch | Assignment2/src/main/java/models/OrderedArrayList.java:83-90 | a null search item gives -1; otherwise a matching index, or -1 exactly when nothing matches |
| OrderedLists.OrderedArrayList.Merge | Assignment2/src/main/java/models/OrderedArrayList.java:177-206 | a null item changes nothing; an item with no match is appended and reported; a matched item is replaced by the merger of the match and the new item; the invariant is kept by a place-keeping merger |
| OrderedLists.OrderedArrayList.Aggregate | Assignment2/src/main/java/models/OrderedArrayList.java:208-224 | the sum of the mapper over all items |
| Violations.NewViolation | Assignment2/src/main/java/models/Violation.java:11-15 | a new violation has the given car and city and one offence |
| Violations.CombineOffencesCounts | Assignment2/src/main/java/models/Violation.java:48-59 | the combined count is the sum of both counts; car and city are kept only where both violations agree |
| Violations.CombineShared | Assignment2/src/main/java/models/Violation.java:48-59 | combining is symmetric in its count and in whether a car is kept; two violations of the same car and city combine to that pair with the summed count |
| Violations.CompareByLicensePlateAndCity | Assignment2/src/main/java/models/Violation.java:17-36 | a NullPointerException exactly when a violation has no car, or when the plates are equal and a violation has no city; a result whenever both have a car and a city; zero exactly on the same plate and city; ordered by plate first and by city between equal plates |
| Violations.CompareByLicensePlateAndCityAntisymmetric | Assignment2/src/main/java/models/Violation.java:17-36 | swapping the violations throws in exactly the same cases and otherwise negates the comparison |
| Cars.PlateOnlyCar | Assignment2/src/main/java/models/Detection.java:76 | a car made from a plate alone has that plate and no type or fuel |
| Detections.IndexOfPlate | Assignment2/src/main/java/models/Detection.java:60-68 | the first index of a car with the plate, or -1 exactly when no car has it |
| Detections.FromLine | Assignment2/src/main/java/models/Detection.java:39-84 | a detection exactly when the line has three comma fields and the trimmed time parses; it carries the trimmed plate and city and the known car with the plate, or a new plate-only car added to the car list |
| Detections.FromLineFields | Assignment2/src/main/java/models/Detection.java:42-48 | a line joined from three trimmed comma-free fields splits back into exactly those fields |
| Detections.ValidatePurple | Assignment2/src/main/java/models/Detection.java:94-114 | a violation exactly for a diesel truck or coach of emission category 6 or more, for that car and city with one offence |
| Detections.UnregisteredCarsDoNotOffend | Assignment2/src/main/java/models/Detection.java:71-79 | a detection of a car known only by its plate never offends |
| TrafficTracking.ByLicensePlate | Assignment2/src/main/java/models/TrafficTracker.java:19 | the car order compares license plates |
| TrafficTracking.ByLicensePlateIsComparator | Assignment2/src/main/java/models/TrafficTracker.java:19 | the plate order is a lawful comparator |
| TrafficTracking.CompareViolations | Assignment2/src/main/java/models/TrafficTracker.java:22-29 | the violation order is zero exactly on the same plate and city |
| TrafficTracking.CompareViolationsAgrees | Assignment2/src/main/java/models/TrafficTracker.java:22-29 | on violations with a car and a city, the comparator of the violation record returns, without throwing, the tracker's violation order |
| TrafficTracking.ViolationOrderIsComparator | Assignment2/src/main/java/models/TrafficTracker.java:22-29 | the violation order is a lawful comparator |
| TrafficTracking.CombinerKeepsPlace | Assignment2/src/main/java/models/TrafficTracker.java:133 | merging offence counts keeps a violation's place in the violation order |
| TrafficTracking.FineRate | Assignment2/src/main/java/models/TrafficTracker.java:157-163 | a positive rate exactly for trucks and coaches |
| TrafficTracking.FinesByType | Assignment2/src/main/java/models/TrafficTracker.java:144-170 | the total of fines is 25 per truck offence plus 35 per coach offence |
| TrafficTracking.PurpleViolationsAreFined | Assignment2/src/main/java/models/TrafficTracker.java:149-170 | every violation found by the purple-zone check is fined at its car's positive rate |
| TrafficTracking.OffendingStep | Assignment2/src/main/java/models/TrafficTracker.java:130-138 | a detection adds one offender when the purple-zone check finds a violation and none otherwise |
| TrafficTracking.TrafficTracker.constructor | Assignment2/src/main/java/models/TrafficTracker.java:17-31 | a new tracker has empty car and violation lists ordered by plate and by plate and city |
| TrafficTracking.OffencesAt | Assignment2/src/main/java/models/TrafficTracker.java:22-29 | counts a violation's offences exactly when it has the given plate and city |
| TrafficTracking.EntryAt | Assignment2/src/main/java/models/TrafficTracker.java:22-29 | counts one exactly for a violation of the given plate and city |
| TrafficTracking.OffendingAt | Assignment2/src/main/java/models/TrafficTracker.java:130-138 | the offending detections of one plate and city are among all offending detections |
| TrafficTracking.OffendingAtStep | Assignment2/src/main/java/models/TrafficTracker.java:130-138 | one more detection adds one offender of its plate and city when the purple-zone check finds a violation, and none otherwise |
| TrafficTracking.NoEntryIffNoMatch | Assignment2/src/main/java/models/OrderedArrayList.java:177-206 | a list has no violation of a pair exactly when nothing in it compares equal to a violation of that pair, which is when `merge` appends |
| TrafficTracking.NoEntryNoOffences | Assignment2/src/main/java/models/TrafficTracker.java:128-140 | a plate and city without a violation have no offences recorded |
| TrafficTracking.SoleEntryCount | Assignment2/src/main/java/models/TrafficTracker.java:128-140 | when a pair has at most one violation, that violation's count is all the offences of its pair |
| TrafficTracking.MergeStepCounts | Assignment2/src/main/java/models/OrderedArrayList.java:177-206 | appending an unmatched offence or combining it into its match gives its pair one more offence, and a new violation only when it had none; every other pair keeps its offences and violations |
| TrafficTracking.MergedPairsStep | Assignment2/src/main/java/models/TrafficTracker.java:128-140 | merging one more detection extends the per-pair account of the merge by that detection |
| TrafficTracking.TrafficTracker.MergeDetections | Assignment2/src/main/java/models/TrafficTracker.java:111-141 | the violations stay ordered with at most one violation per plate and city; each plate and city gains one offence per offending detection of it, and has a violation exactly when it had one or one of its detections offends; the result is the number of new violations, and the offence total grows by the number of offending detections |
| TrafficTracking.TrafficTracker.MergeViolations | Assignment2/src/main/java/models/TrafficTracker.java:128-140 | the merge loop: the same promises over the detections in order |
| TrafficTracking.TrafficTracker.MergeViolation | Assignment2/src/main/java/models/TrafficTracker.java:131-137 | a violation is appended, and true returned, exactly when no stored violation has its plate and city; otherwise it is combined into the matching one in place; its pair gains one offence, and a violation only when new; every other pair is unchanged; no violation changes nothing |
| TrafficTracking.TrafficTracker.CalculateTotalFines | Assignment2/src/main/java/models/TrafficTracker.java:144-170 | the sum over all violations of the rate of the car's type times its offence count |
| TrafficTracking.TrafficTracker.TopViolationsByCar | Assignment2/src/main/java/models/TrafficTracker.java:186-199 | IllegalArgument exactly for a negative number; otherwise at most that many violations, by non-increasing offence count, a sub-multiset of the violations, none with fewer offences than any left out |
| TrafficTracking.TrafficTracker.TopViolationsByCity | Assignment2/src/main/java/models/TrafficTracker.java:201-214 | the same list as the by-car list |
| Songs.LanguageName | Assignment3/A3_SpotifyCharts_starter/src/main/java/spotifycharts/Song.java:7-14 | every language renders as its two-letter name |
| Songs.AllCountries | Assignment3/A3_SpotifyCharts_starter/src/main/java/spotifycharts/Song.java:16-24 | the countries in declaration order, each once |
| Songs.AllCountriesComplete | Assignment3/A3_SpotifyCharts_starter/src/main/java/spotifycharts/Song.java:16-24 | every country is among them |
| Songs.Song.constructor | Assignment3/A3_SpotifyCharts_starter/src/main/java/spotifycharts/Song.java:37-49 | a new song has the given artist, title and language, no streams and total 0 |
| Songs.Song.SetStreamsCountOfCountry | Assignment3/A3_SpotifyCharts_starter/src/main/java/spotifycharts/Song.java:51-59 | the country's count becomes the given one, the other countries keep theirs and the total moves by the difference |
| Songs.Song.GetStreamsCountOfCountry | Assignment3/A3_SpotifyCharts_starter/src/main/java/spotifycharts/Song.java:61-72 | the stored count of the country, or 0 when it was never set |
| Songs.Song.GetStreamsCountTotal | Assignment3/A3_SpotifyCharts_starter/src/main/java/spotifycharts/Song.java:73-85 | summing the stored counts in any order gives the total over all countries |
| Songs.SumStreamsUpdate | Assignment3/A3_SpotifyCharts_starter/src/main/java/spotifycharts/Song.java:56-59 | changing one country's count changes the total by the difference |
| Songs.Song.CompareByHighestStreamsCountTotal | Assignment3/A3_SpotifyCharts_starter/src/main/java/spotifycharts/Song.java:88-98 | negative exactly when this song has more streams, zero exactly on equal totals, positive exactly when it has fewer |
| Songs.Song.CompareForDutchNationalChart | Assignment3/A3_SpotifyCharts_starter/src/main/java/spotifycharts/Song.java:100-119 | a Dutch song comes before a non-Dutch one; between songs of the same Dutchness the one with more streams comes first |
| Songs.DutchChartAntisymmetric | Assignment3/A3_SpotifyCharts_starter/src/main/java/spotifycharts/Song.java:88-119 | both song orders put a song level with itself and flip sign when the songs are swapped |
| Songs.ToStringParts | Assignment3/A3_SpotifyCharts_starter/src/main/java/spotifycharts/Song.java:134-136 | the rendering starts with artist/title and ends with the total in parentheses, whose digits read back as the total |
| SongComparators.Compare | Assignment3/A3_SpotifyCharts_starter/src/main/java/spotifycharts/SongComparator.java:8-24 | negative exactly when the first song has more streams, or equal streams and only it is Dutch; zero exactly on equal totals and equal Dutchness |
| SongComparators.CompareAntisymmetric | Assignment3/A3_SpotifyCharts_starter/src/main/java/spotifycharts/SongComparator.java:8-24 | a song is level with itself and swapping the songs flips the sign |
| SongComparators.CompareTransitive | Assignment3/A3_SpotifyCharts_starter/src/main/java/spotifycharts/SongComparator.java:8-24 | "not after" is transitive, so the chart order is a lawful comparator |
| Sorter.Swap | Assignment3/A3_SpotifyCharts_starter/src/main/java/spotifycharts/SorterImpl.java:68-72 | exchanges the two items and nothing else |
| Sorter.SelInsBubSort | Assignment3/A3_SpotifyCharts_starter/src/main/java/spotifycharts/SorterImpl.java:7-30 | the array ends sorted by the comparator and is a permutation of its input |
| Sorter.QuickSort | Assignment3/A3_SpotifyCharts_starter/src/main/java/spotifycharts/SorterImpl.java:32-43 | the array ends sorted and is a permutation of its input |
| Sorter.QuickSortPart | Assignment3/A3_SpotifyCharts_starter/src/main/java/spotifycharts/SorterImpl.java:45-51 | the part from lo to hi ends sorted, is a permutation of its old contents, and the items outside are untouched |
| Sorter.Partition | Assignment3/A3_SpotifyCharts_starter/src/main/java/spotifycharts/SorterImpl.java:53-66 | the pivot, the old last item, lands at the result index with smaller items before it and the others after it; the range is permuted and the rest untouched |
| Sorter.ParentIndex | Assignment3/A3_SpotifyCharts_starter/src/main/java/spotifycharts/SorterImpl.java:145-154 | the parent of a child index is an earlier index whose child it is, and the root is its own parent |
| Sorter.HeapSwim | Assignment3/A3_SpotifyCharts_starter/src/main/java/spotifycharts/SorterImpl.java:145-172 | a heap up to its last item becomes a heap with it, the heap items are permuted and the rest untouched |
| Sorter.HeapSink | Assignment3/A3_SpotifyCharts_starter/src/main/java/spotifycharts/SorterImpl.java:173-207 | a heap broken only at the root becomes a heap, the heap items are permuted and the rest untouched |
| Sorter.BuildLead | Assignment3/A3_SpotifyCharts_starter/src/main/java/spotifycharts/SorterImpl.java:95-98 | fails exactly when more than one top is asked of a shorter array; otherwise the leading numTops items form a heap in reverse order, as a permutation |
| Sorter.AdmitTail | Assignment3/A3_SpotifyCharts_starter/src/main/java/spotifycharts/SorterImpl.java:101-115 | fails exactly for a negative numTops; afterwards no tail item comes before the worst of the lead, as a permutation |
| Sorter.SortLead | Assignment3/A3_SpotifyCharts_starter/src/main/java/spotifycharts/SorterImpl.java:120-140 | the lead ends sorted, no tail item comes before any lead item, as a permutation |
| Sorter.TopsHeapSort | Assignment3/A3_SpotifyCharts_starter/src/main/java/spotifycharts/SorterImpl.java:74-143 | fails exactly for a negative numTops or more than one top of a shorter array; otherwise the first numTops items are sorted and none comes after a tail item, and the array is a permutation of its input |
| Ordering.ReversedIsComparator | Assignment3/A3_SpotifyCharts_starter/src/main/java/spotifycharts/SorterImpl.java:92-94 | the reverse of a lawful comparator is lawful |
| Ordering.SortIsSorted | Assignment2/src/main/java/models/TrafficTracker.java:191 | the reference sort orders its permutation of the input by any lawful comparator |
| Ordering.InsertSorted | Assignment2/src/main/java/models/TrafficTracker.java:191 | inserting into a sorted sequence keeps it sorted |
| Ordering.ByKeyDescendingIsComparator | Assignment2/src/main/java/models/TrafficTracker.java:191 | ordering by decreasing key is a lawful comparator |
| Ordering.Take | Assignment2/src/main/java/models/TrafficTracker.java:194-196 | keeps the first n items, or all of them when there are fewer |
| Ordering.TopByKeyIsTopList | Assignment2/src/main/java/models/TrafficTracker.java:186-199 | the first n by decreasing key form a top list: the right length, non-increasing keys, no left-out item with a greater key, together with the rest a permutation of the input |
| Strings.CompareStringsZeroIffEqual | Assignment2/src/main/java/models/Violation.java:19 | string comparison is zero exactly on equal strings |
| Strings.CompareStringsAntisymmetric | Assignment2/src/main/java/models/Violation.java:19 | swapping the strings negates the comparison |
| Strings.CompareStringsTransitive | Assignment2/src/main/java/models/Violation.java:19-26 | "not after" on strings is transitive |
| Strings.StringOrderIsComparator | Assignment2/src/main/java/models/Violation.java:17-36 | string comparison is a lawful comparator |
| Strings.TrimIsCore | Assignment2/src/main/java/models/Detection.java:46-48 | trimming takes the middle of the string between leading and trailing control and space characters and leaves no such character at either end |
| Strings.TrimIdempotent | Assignment2/src/main/java/models/Detection.java:46-48 | trimming twice is trimming once |
| Strings.FieldsJoin | Assignment2/src/main/java/models/Detection.java:42 | joining the comma fields of a line with commas gives back the line |
| Strings.FieldsCount | Assignment2/src/main/java/models/Detection.java:42 | a line has one more comma field than commas |
| Strings.SplitFacts | Assignment2/src/main/java/models/Detection.java:42 | split gives the comma fields without the trailing empty ones, and a line without a comma as its only field |
| Strings.SplitThree | Assignment2/src/main/java/models/Detection.java:42-45 | three comma-free fields with a non-empty last split back into exactly those three |
| Strings.NatToStringValue | Assignment3/A3_SpotifyCharts_starter/src/main/java/spotifycharts/Song.java:135 | the decimal rendering of a number reads back as that number |
| Strings.IntToString | Assignment3/A3_SpotifyCharts_starter/src/main/java/spotifycharts/Song.java:135 | a negative number renders with a minus sign before the digits of its magnitude |
| Sums.TotalAppend | Assignment2/src/main/java/models/OrderedArrayList.java:214-224 | the sum over a concatenation is the sum of the sums |
| Sums.TotalUpdate | Assignment2/src/main/java/models/OrderedArrayList.java:198-201 | replacing one item changes the sum by the difference of the contributions |
| Sums.TotalPermutation | Assignment2/src/main/java/models/OrderedArrayList.java:214-224 | the sum does not depend on the order of the items |
| Elections.IntegersSum | Assignment4/A4_Elections_starter/src/main/java/nl/hva/ict/ads/elections/models/Election.java:278-285 | the sum of an empty list is 0 |
| Elections.IntegersSumIsTotal | Assignment4/A4_Elections_starter/src/main/java/nl/hva/ict/ads/elections/models/Election.java:278-285 | the stream reduction is the sum of the list |
| Elections.IntegersSumAppend | Assignment4/A4_Elections_starter/src/main/java/nl/hva/ict/ads/elections/models/Election.java:278-285 | the sum of a concatenation is the sum of the sums |
| Elections.IntegersSumPermutation | Assignment4/A4_Elections_starter/src/main/java/nl/hva/ict/ads/elections/models/Election.java:278-285 | the sum does not depend on the order of the list |
| Elections.Election.GetParty | Assignment4/A4_Elections_starter/src/main/java/nl/hva/ict/ads/elections/models/Election.java:44-52 | the party with the id, or null exactly when there is none |
| Elections.Election.GetAllCandidates | Assignment4/A4_Elections_starter/src/main/java/nl/hva/ict/ads/elections/models/Election.java:58-87 | every registered candidate exactly once per party, grouped by increasing party id, and nothing else |
| Elections.FoldConstituenciesGroups | Assignment4/A4_Elections_starter/src/main/java/nl/hva/ict/ads/elections/models/Election.java:63-80 | after all constituencies a candidate is in a party's group exactly when some constituency registers it for that party |
| Elections.FoldPartiesGroups | Assignment4/A4_Elections_starter/src/main/java/nl/hva/ict/ads/elections/models/Election.java:68-78 | after a constituency's parties a candidate is in a party's group exactly when it was before or one of those parties lists it |
| Elections.AddConstituencyCandidates | Assignment4/A4_Elections_starter/src/main/java/nl/hva/ict/ads/elections/models/Election.java:66-79 | adding a constituency adds the candidates of each of its parties to that party's group |
| Elections.AddPartyCandidates | Assignment4/A4_Elections_starter/src/main/java/nl/hva/ict/ads/elections/models/Election.java:70-77 | adding a party adds its candidates to the group of its id |
| Elections.FlattenGroups | Assignment4/A4_Elections_starter/src/main/java/nl/hva/ict/ads/elections/models/Election.java:81-86 | the groups are listed one after another by increasing id, each candidate of a group once |
| Elections.Election.GetCandidatesWithDuplicateNames | Assignment4/A4_Elections_starter/src/main/java/nl/hva/ict/ads/elections/models/Election.java:110-145 | exactly the candidates met after an earlier candidate with the same trimmed name, over all constituencies and parties in order |
| Elections.ScanDuplicates | Assignment4/A4_Elections_starter/src/main/java/nl/hva/ict/ads/elections/models/Election.java:120-138 | the scan marks a candidate exactly when it is visited after a namesake |
| Elections.ScanSeenNames | Assignment4/A4_Elections_starter/src/main/java/nl/hva/ict/ads/elections/models/Election.java:120-138 | the names the scan has seen are the trimmed names of the candidates visited |
| Elections.DuplicateNames | Assignment4/A4_Elections_starter/src/main/java/nl/hva/ict/ads/elections/models/Election.java:120-138 | of two candidates with the same trimmed name the later one is marked, and the first bearer of the name is not |
| Elections.ScanConstituency | Assignment4/A4_Elections_starter/src/main/java/nl/hva/ict/ads/elections/models/Election.java:120-138 | the constituency loop scans its parties' candidates in order |
| Elections.ScanPartyCandidates | Assignment4/A4_Elections_starter/src/main/java/nl/hva/ict/ads/elections/models/Election.java:124-136 | the party loop scans its candidates in order |
| Elections.Election.GetPollingStationsByZipCodeRange | Assignment4/A4_Elections_starter/src/main/java/nl/hva/ict/ads/elections/models/Election.java:168-184 | exactly the polling stations whose zip code lies between the two bounds, inclusive |
| Elections.FilterByZipCode | Assignment4/A4_Elections_starter/src/main/java/nl/hva/ict/ads/elections/models/Election.java:176-184 | the filtered stations are exactly those in the range, each as often as in the input |
| Elections.ZipRangeReversed | Assignment4/A4_Elections_starter/src/main/java/nl/hva/ict/ads/elections/models/Election.java:168-184 | a range whose first bound comes after its last holds no station |
| Elections.GetVotesByPartyAcrossPollingStations | Assignment4/A4_Elections_starter/src/main/java/nl/hva/ict/ads/elections/models/Election.java:199-211 | a party is counted exactly when some station has votes for it, and its count is the sum of its votes over the stations |
| Elections.Election.GetVotesByParty | Assignment4/A4_Elections_starter/src/main/java/nl/hva/ict/ads/elections/models/Election.java:187-195 | a party is counted exactly when some constituency has votes for it, with the sum of its votes over the constituencies |
| Elections.VotesByPartySums | Assignment4/A4_Elections_starter/src/main/java/nl/hva/ict/ads/elections/models/Election.java:191-195 | merging vote maps with addition gives every party that occurs and its summed votes |
| Elections.PartyVotesAbsent | Assignment4/A4_Elections_starter/src/main/java/nl/hva/ict/ads/elections/models/Election.java:191-195 | a party that no map mentions has 0 votes |
| Elections.RankedVoteCounts | Assignment4/A4_Elections_starter/src/main/java/nl/hva/ict/ads/elections/models/Election.java:223-225 | IllegalArgument exactly for a negative number; otherwise at most that many parties with their vote counts, by non-increasing votes, none below a party left out |
| Elections.VotesPercentage | Assignment4/A4_Elections_starter/src/main/java/nl/hva/ict/ads/elections/models/Election.java:218 | a finite share exactly when the total is not zero, which times the total is 100 times the votes; NaN for no votes and an infinity of the votes' sign over a zero total |
| Elections.SortedElectionResultsByPartyPercentage | Assignment4/A4_Elections_starter/src/main/java/nl/hva/ict/ads/elections/models/Election.java:215-228 | IllegalArgument exactly for a negative number; otherwise the ranked parties in order, each paired with its percentage of the total votes in the map |
| Elections.PercentageMonotone | Assignment4/A4_Elections_starter/src/main/java/nl/hva/ict/ads/elections/models/Election.java:218 | of the same positive total, more votes never give a smaller percentage |
| Elections.PercentageBounded | Assignment4/A4_Elections_starter/src/main/java/nl/hva/ict/ads/elections/models/Election.java:218 | votes between none and the whole positive total give a percentage between 0 and 100 |
| Elections.PercentagesNonIncreasing | Assignment4/A4_Elections_starter/src/main/java/nl/hva/ict/ads/elections/models/Election.java:215-220 | with a positive total the percentages are finite and come highest first |
| Elections.PercentagesBounded | Assignment4/A4_Elections_starter/src/main/java/nl/hva/ict/ads/elections/models/Election.java:215-228 | with no negative count and a positive total every percentage lies between 0 and 100 |
| Elections.Entries | Assignment4/A4_Elections_starter/src/main/java/nl/hva/ict/ads/elections/models/Election.java:223-224 | each entry pairs a party with its own vote count |
| Graphs.GPath.constructor | Assignment5/A5_MazeEscape_starter/src/main/java/maze_escape/AbstractGraph.java:113-121 | a new path has no vertices, weight 0 and nothing visited |
| Graphs.GPath.AddVertex | Assignment5/A5_MazeEscape_starter/src/main/java/maze_escape/AbstractGraph.java:182-184 | the vertex is appended at the end of the path |
| Graphs.GPath.RemoveLastVertex | Assignment5/A5_MazeEscape_starter/src/main/java/maze_escape/AbstractGraph.java:185-189 | the last vertex is removed, and an empty path stays empty |
| Graphs.GPath.ReCalculateTotalWeight | Assignment5/A5_MazeEscape_starter/src/main/java/maze_escape/AbstractGraph.java:150-158 | the total weight becomes the sum of the weights of the consecutive edges of the path |
| Graphs.ReachableStep | Assignment5/A5_MazeEscape_starter/src/main/java/maze_escape/AbstractGraph.java:25-32 | a vertex reachable from a start leads on to each of its neighbours |
| Graphs.ClosedContainsReachable | Assignment5/A5_MazeEscape_starter/src/main/java/maze_escape/AbstractGraph.java:25-32 | a set closed under edges that holds the start holds every vertex reachable from it |
| Graphs.PathWeightConcat | Assignment5/A5_MazeEscape_starter/src/main/java/maze_escape/AbstractGraph.java:150-158 | the weight of joined paths is the two weights plus the joining edge |
| GraphTraversal.GetAllVertices | Assignment5/A5_MazeEscape_starter/src/main/java/maze_escape/AbstractGraph.java:25-38 | exactly the vertices reachable from the first vertex, which is among them, and closed under edges |
| GraphTraversal.GetAllVerticesRecursive | Assignment5/A5_MazeEscape_starter/src/main/java/maze_escape/AbstractGraph.java:40-49 | the vertices newly visited are reachable from the current vertex and every edge out of them leads into the visited set |
| GraphTraversal.FormatAdjacencyList | Assignment5/A5_MazeEscape_starter/src/main/java/maze_escape/AbstractGraph.java:64-69 | the header followed by one adjacency line per reachable vertex, each once, starting with the first vertex |
| GraphTraversal.FormatAdjacencyListRecursive | Assignment5/A5_MazeEscape_starter/src/main/java/maze_escape/AbstractGraph.java:71-101 | appends the lines of the newly visited vertices in visiting order, this vertex first, each once, all reachable from it |
| GraphTraversal.AppendAdjacencyLine | Assignment5/A5_MazeEscape_starter/src/main/java/maze_escape/AbstractGraph.java:80-95 | one line "name: [n1,n2,...]" with the neighbours in the sorted order and the trailing comma dropped |
| GraphTraversal.CommaTerminatedIsJoin | Assignment5/A5_MazeEscape_starter/src/main/java/maze_escape/AbstractGraph.java:85-91 | writing each name followed by a comma and dropping the final comma is joining the names with commas |
| GraphTraversal.SortedNeighboursPermutation | Assignment5/A5_MazeEscape_starter/src/main/java/maze_escape/AbstractGraph.java:76-78 | the sorted neighbours are a permutation of the neighbours |
| GraphTraversal.SortedNeighboursMembers | Assignment5/A5_MazeEscape_starter/src/main/java/maze_escape/AbstractGraph.java:76-78 | a vertex is among the sorted neighbours exactly when there is an edge to it |
| GraphTraversal.SortedNeighboursOrdered | Assignment5/A5_MazeEscape_starter/src/main/java/maze_escape/AbstractGraph.java:76-78 | the sorted neighbours are ordered by name |
| GraphSearch.DepthFirstSearch | Assignment5/A5_MazeEscape_starter/src/main/java/maze_escape/AbstractGraph.java:200-219 | null for a missing vertex; the one-vertex path for equal vertices; otherwise a path from start to target along the edges without repeated vertices; a path exactly when the target is reachable |
| GraphSearch.DepthFirstSearchRecursive | Assignment5/A5_MazeEscape_starter/src/main/java/maze_escape/AbstractGraph.java:221-241 | found: the path is extended by a route from the current vertex to the target through newly visited vertices; not found: the path is restored, the target is still unvisited and every edge from a newly visited vertex stays inside the visited set |
| GraphSearch.BreadthFirstSearch | Assignment5/A5_MazeEscape_starter/src/main/java/maze_escape/AbstractGraph.java:252-288 | null for a missing vertex; the one-vertex path for equal vertices; otherwise the vertices in the order they leave the queue, from start to target (not a route along edges), pairwise distinct, all reachable; a result exactly when the target is reachable |
| GraphSearch.EnqueueNeighbours | Assignment5/A5_MazeEscape_starter/src/main/java/maze_escape/AbstractGraph.java:278-284 | every neighbour of the current vertex is marked, queued once, and reachable from the start |
| ShortestPath.MSTNode.constructor | Assignment5/A5_MazeEscape_starter/src/main/java/maze_escape/AbstractGraph.java:292-307 | a new node has the given vertex, parent and weight and is not marked |
| ShortestPath.DijkstraShortestPath | Assignment5/A5_MazeEscape_starter/src/main/java/maze_escape/AbstractGraph.java:309-396 | null for a missing vertex; for equal vertices the one-vertex path of weight 0; otherwise a path from start to target whose weight is its edge sum and no heavier than any other such path, with visited vertices all reachable; a path exactly when the target is reachable |
| ShortestPath.SpanningTreeSearch | Assignment5/A5_MazeEscape_starter/src/main/java/maze_escape/AbstractGraph.java:349-393 | stops at the target with every finalized vertex at its shortest distance, or finds that the target is unreachable |
| ShortestPath.GrowTree | Assignment5/A5_MazeEscape_starter/src/main/java/maze_escape/AbstractGraph.java:349-393 | the search loop: it returns the target node with every finalized vertex at its shortest distance, or it empties the queue only when the target is unreachable; the visited set grows by exactly the finalized vertices |
| ShortestPath.PolledIsMinimal | Assignment5/A5_MazeEscape_starter/src/main/java/maze_escape/AbstractGraph.java:351-357 | the polled node with the least tentative weight is at its shortest distance |
| ShortestPath.Exhausted | Assignment5/A5_MazeEscape_starter/src/main/java/maze_escape/AbstractGraph.java:349-393 | when the queue runs empty before the target is finalized, the target is unreachable |
| ShortestPath.FinalRoute | Assignment5/A5_MazeEscape_starter/src/main/java/maze_escape/AbstractGraph.java:384-391 | the route to a finalized target is a path of least weight |
| ShortestPath.ReconstructPath | Assignment5/A5_MazeEscape_starter/src/main/java/maze_escape/AbstractGraph.java:384-391 | following parent links from the target gives the shortest route from the start, with its weight |

## Left out

- File and XML input, console output, timing and drivers are not modelled, because they are I/O. This covers the `import*` methods, `measureExecutionTime`, `main`, random list generation, the summary printers and `SpotifyChartsMain`.
- A date-time in a detection line is parsed by a function passed as a parameter. `LocalDateTime` parsing is not modelled.
- `Detection.toString`, `Violation.toString`, `GPath.toString` and `Train.toString` are not modelled. They only render text.
- Doubles become integers: edge weights are `nat`, and `aggregate` and the fines are `int`.
- Songs.Song.GetStreamsCountTotal: the sum is unbounded, and 32-bit `int` overflow of large stream totals is not modelled.
- Songs.Song.CompareByHighestStreamsCountTotal: the subtraction of totals is unbounded, so it does not overflow on very large totals as the Java code would.
- SongComparators.Compare: like the above, the subtraction of totals does not wrap around.
- Elections.IntegersSum: the sum is unbounded and does not wrap around at 32 bits.
- Violations.CombineOffencesCounts: the summed count is unbounded and does not wrap around at 32 bits, as the `int` sum at Violation.java line 56 would. The offence counts of the merge rest on this sum.
- Elections.SortedElectionResultsByPartyPercentage: `100.0 * votes / totalVotes` is a Java `double`. The model computes it as an exact real, without rounding, and gives NaN or an infinity for a zero total as IEEE 754 division does. The `int` sum `totalVotes` is unbounded and does not wrap around at 32 bits.
- Elections.GetVotesByPartyAcrossPollingStations: `summingInt` is unbounded here and does not wrap around at 32 bits.
- Elections.Election.GetVotesByParty: like the above, the sums of votes do not wrap around at 32 bits.
- Trains.Train.GetTotalNumberOfSeats: the sum of seats is unbounded and does not wrap around at 32 bits.
- Trains.Train.TotalMaxWeight: the sum of maximum weights is unbounded and does not wrap around at 32 bits.
- Strings.CompareStrings: Java compares UTF-16 code units, and the model compares Unicode scalar values. The two differ only on characters outside the Basic Multilingual Plane, which Java stores as surrogate pairs.
- Cars are records with a plate, an optional type and fuel and an emission category. Two cars are the same when their plates are. `Car.java` is not part of this model.
- TrafficTracking.CompareViolations: a violation without a car or city compares as if the plate or city were the empty string, where Java would throw a NullPointerException.
- TrafficTracking.TrafficTracker.TopViolationsByCar: follows the code, which ranks the stored violations by offence count. It does not aggregate per car as the documentation says.
- TrafficTracking.TrafficTracker.TopViolationsByCity: follows the code, which ranks the stored violations by offence count. It does not aggregate per city.
- TrafficTracking.TrafficTracker.MergeDetections follows the code. Its result is the number of new violations, those for which `merge` returns true. The comment at TrafficTracker.java line 128 calls it the total number of offences, which the model states separately as the growth of the offence total.
- `OrderedArrayList.remove(Object)` and `indexOf` are overridden in OrderedArrayList.java (lines 62-80) and not modelled.
  - `remove(Object)` always answers false. After a removal it looks the item up again, and unless an equal item is left this gives -1, so `nSorted` goes down even when the item lay outside the sorted section, to -1 when it was 0. It does not keep the list's invariant.
  - `indexOf` is OrderedLists.OrderedArrayList.IndexOfByIterativeBinarySearch whenever a sort order is set, and the inherited linear lookup otherwise.
- Detections.ValidatePurple follows the code, which treats an emission category of 6 or more as an offence. Its documentation says "below 6".
- SongComparators.Compare follows the code. SongStabilityTest.java lines 48-65 expect a different result for songs with equal totals and equal language, where the code gives 0.
- Sorter.TopsHeapSort sorts in the order of the given comparator, as its documentation and code do. SortingPerfomanceTest.java lines 31-36 state the reverse order.
- Wagon.detachFront, reAttachTo, removeFromSequence and reverseSequence are not modelled. detachFront dereferences a wagon that may be null. The others are unfinished stubs.
- Train.canAttach as written, insertAtFront and reverse are not modelled. canAttach dereferences the first wagon even when the train is empty, and its type test accepts every wagon. insertAtFront and reverse depend on it. The check canAttach documents is the predicate `Trains.CanAttach`, which Trains.Train.AttachToRearChecked applies.
- Trains.Train.AttachToRearChecked states the train's new sequence, the links it sets and the predecessor it detaches. It does not state that the connection invariants still hold for every wagon afterwards.
- Train.getNumberOfWagons is not modelled. It counts the locomotive's capacity, and `Locomotive` is not part of this model. The capacity is the train field `maxWagons`.
- Trains.Train.FindWagonAtPosition follows the code, which counts positions among passenger wagons only. Its documentation counts all wagons.
- Trains.Train.InsertAtPosition, Trains.Train.MoveOneWagon and Trains.Train.SplitAtPosition are stubs in the source that return false. They are modelled only as such.
- Election:
  - `numberOfRegistrationsByConstituency`, `getTotalCandidates` (it only prints), `prepareSummary`, `findMostRepresentativePollingStation` and `euclidianVotesDistributionDeviation` are not modelled;
  - the collection getters `getParties` and `getConstituencies` are not modelled;
  - the data import is not modelled.
- `Party`, `Candidate`, `Constituency` and `PollingStation` are modelled only as the records their getters expose. `Party.java` and `Candidate.java` are not part of this model.
- Two parties are the same when their id, name and candidates are all equal. AdditionalScenariosTest.java lines 11-41 expect parties with the same id and name to be equal. So a vote map here holds two entries for one party whose candidate lists differ.
- Two candidates are the same when their full names are. So namesakes in different parties are one candidate here.
- GraphSearch.BreadthFirstSearch follows the code, which adds every vertex it takes off the queue to the path. The result is that dequeue order, not a route along edges, and `path.visited` stays empty unless start and target are equal. Its documentation at AbstractGraph.java lines 243-251 promises the path from start to target and a visited set holding every vertex the search visited.
- GraphSearch.DepthFirstSearch follows the code, which leaves `path.visited` empty unless start and target are equal. Its documentation at AbstractGraph.java lines 191-198 promises that every visited vertex is registered there.
- OrderedLists.OrderedArrayList: the constructor without arguments (OrderedArrayList.java lines 20-22) is not modelled. It leaves the sort order null, so every search on such a list would throw a NullPointerException, and the traffic tracker always passes a comparator.
- Nodes of a graph's neighbour sets: hash-set iteration order is a fixed but arbitrary sequence of neighbours per vertex.

## Findings

| source | as written | input that shows it | evidently intended | confidence | as-written member | corrected member |
|---|---|---|---|---|---|---|
| Assignment1/src/main/java/models/Wagon.java:68-81 | counts the starting wagon, then adds one only for freight wagons that have a successor | two linked passenger wagons give 1, though the sequence has length 2 | count every wagon from this one to the end of the tail | not executed | Wagons.Wagon.GetSequenceLength, Wagons.SequenceLengthAsWritten | Wagons.Wagon.SequenceLength |
| Assignment1/src/main/java/models/Wagon.java:98-101 | refuses when this wagon has a predecessor or the tail has a successor | wagon a pulls b; attaching a free wagon c to a passes both guards, and b still names a as its predecessor | refuse when this wagon already pulls a wagon or the tail already has a predecessor, as the documentation says | not executed | Wagons.Wagon.AttachTail, Wagons.AttachTailBreaksConnection | Wagons.Wagon.AttachTailChecked |
| Assignment1/src/main/java/models/Train.java:121-124 | adds the maximum weight of every passenger wagon, casting it to a freight wagon | a train with one passenger wagon throws ClassCastException instead of giving 0 | add the maximum weights of the freight wagons | not executed | Trains.Train.GetTotalMaxWeight | Trains.Train.TotalMaxWeight |
| Assignment1/src/main/java/models/Train.java:161-177 | compares the id with the index of each passenger wagon | a train of one passenger wagon with id 7 gives null | return the wagon whose id equals the given id | not executed | Trains.Train.FindWagonById, Trains.FindWagonByIdMisses | Trains.Train.FindWagonWithId |
| Assignment1/src/main/java/models/Train.java:214-242 | an empty train takes the wagon; otherwise the wagon follows the last wagon whenever the engine pulls any wagon at all, with no test of kind, capacity or membership, without detaching it from its predecessor or linking it back; the answer is always false | an empty train with room for one wagon and a free wagon w: w becomes the first wagon and the answer is false | attach only what the documented check allows, detach the head from its predecessor, link it back and answer true; change nothing otherwise | not executed | Trains.Train.AttachToRear, Trains.AttachToRearMisreports | Trains.Train.AttachToRearChecked |
