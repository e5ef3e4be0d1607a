# Metatube: verified models

Dafny models of the self-contained algorithms and protocols of the repository, with
the properties they are relied on for.

- `Connectivity`, `Forest`, `UnionFind`: the three disjoint-set structures, over the
  equivalence closure of the pairs united, classes counted by their least elements.
- `Clustering`: grouping by distance, on top of quick union.
- `Ordinal`, `ActorLock`: the ordered multi-lock of the plugin as a transition system
  with any number of callers and cancellation at any wait.
- `Options`, `Spacing`: missing values, and white space in names.
- `Levenshtein`: the one-row edit distance, the recurrence it computes, shortest edit
  scripts, the metric laws and the title similarity.
- `SingleFlight`: shared runs of one function with a time window, as a class and as a
  transition system in which callers interleave at every step outside the mutex.
- `WeightedSlices`, `FaceCrop`: from detected faces to the crop window, across five
  packages; `WideImages`: what resizing a wide image first does to the axis; `Listings`:
  what the order of the groups does to the position.
- `OrderedSets`, `SearchMerge`: the merged, ranked search over all providers.
- `Alphanum`: the natural-sort comparator.
- `ProviderIds`, `PluginIds`: the two textual forms of a provider id, Go and C#.
- `ActorStore`: the read-through store with deferred image injection.
- `SourceOrder`, `ActorMerge`, `MergedLists`: the merge of actor records by source priority,
  and what the merged record owes to the records.
- `PersonIndex`: the index of existing people and its lookup.

Code that updates state is modelled by classes and methods with loops, each proved
against a specification function or relation; the protocols are transition systems
over values, because their claims are about all interleavings.

Points where the code does less than its names or documentation suggest, each stated
by a lemma with an input, and by its exact condition:

- a natural-sort comparison that meets null or a number too large for an `int` stops
  with "equal", which is not transitive (`Alphanum.TooLargeForInt`, `NullIsBetween`,
  `TransitiveExactlyWhenFitting`);
- a plugin id with a colon in its provider, or with an update flag and no position,
  does not read back (`PluginIds.ReadSwallowsUpdate`, `StoreRead`);
- an id that looks like a position is cut off when it is printed without one
  (`ProviderIds.PrintParse`);
- `Reset` can lose the spacing of runs (`SingleFlight.ResetBreaksSpacing`,
  `ResetHarmlessExactly`);
- a search result can depend on which provider answers last, because provider and id
  are run together into one key (`SearchMerge.LaterAnswerWins`,
  `ResultsIndependentExactly`);
- a two-word name of the canonical form with a year can be found where its reversal is
  missed (`PersonIndex.FooBar`, `ReversalFindsAlikeExactly`);
- with two equally heavy clusters the crop depends on the order in which Go lists a map
  (`Listings.TieIsUndecided`, `ListingIrrelevantExactly`);
- the position found in a resized wide image can be meant for the other axis
  (`WideImages.WideAxesDiffer`, `AxesAgreeExactly`), in which case the crop leaves out
  next to nothing (`AcrossLosesLittle`, `DownLosesLittle`).

The position pattern's class `[0|1]` also accepts a bar; the model follows it.

## Model

| member | source | states |
|---|---|---|
| `UnionFind.QuickFind.constructor` | collection/unionfind/unionfind.go:34-44 | n elements in n classes, nothing united |
| `UnionFind.QuickFind.Find` | collection/unionfind/unionfind.go:72-78 | -1 and false out of range; otherwise the label of the class, shared by exactly the connected elements |
| `UnionFind.QuickFind.Union` | collection/unionfind/unionfind.go:50-70 | p's component takes q's label, which turns the labelling of the closure of the united pairs into that of the closure with one more pair; a call out of range changes nothing |
| `UnionFind.QuickFind.IsConnected` | collection/unionfind/unionfind.go:80-89 | true exactly when both indices are valid and a chain of united pairs joins them |
| `UnionFind.QuickFind.Count` | collection/unionfind/unionfind.go:91-93 | the number of classes of that closure |
| `UnionFind.QuickUnion.constructor` | collection/unionfind/unionfind.go:101-111 | n elements in n classes, nothing united |
| `UnionFind.QuickUnion.Find` | collection/unionfind/unionfind.go:133-143 | terminates on the parent array and returns the connected root of a valid index |
| `UnionFind.QuickUnion.Union` | collection/unionfind/unionfind.go:117-131 | p's root is hung below q's: the array stays an acyclic forest whose roots represent the closure with one more pair |
| `UnionFind.QuickUnion.IsConnected` | collection/unionfind/unionfind.go:145-154 | true exactly when both indices are valid and a chain of united pairs joins them |
| `UnionFind.QuickUnion.Count` | collection/unionfind/unionfind.go:156-158 | the number of classes of that closure |
| `UnionFind.WeightedQuickUnion.constructor` | collection/unionfind/unionfind.go:167-180 | n singleton components of size 1 |
| `UnionFind.WeightedQuickUnion.Find` | collection/unionfind/unionfind.go:210-220 | returns the connected root, following at most log2 of the root's size parent links, hence at most log2(n) |
| `UnionFind.WeightedQuickUnion.Union` | collection/unionfind/unionfind.go:186-208 | the smaller root is hung below the larger, q's below p's on a tie: the forest stays balanced, sizes of roots stay exact member counts, and one more pair is united |
| `UnionFind.WeightedQuickUnion.Link` | collection/unionfind/unionfind.go:198-205 | the new root and size arrays of either branch, and that they represent the closure with the pair added |
| `UnionFind.WeightedQuickUnion.IsConnected` | collection/unionfind/unionfind.go:222-231 | true exactly when both indices are valid and a chain of united pairs joins them |
| `UnionFind.WeightedQuickUnion.Count` | collection/unionfind/unionfind.go:233-235 | the number of classes of that closure |
| `UnionFind.WeightedQuickUnion.SizesSum` | collection/unionfind/unionfind.go:160-164 | conservation: in every reachable state the sizes of the roots add up to n |
| `UnionFind.DriveAll` | collection/unionfind/unionfind.go:50-93 | the same calls, valid or not, make the three structures answer IsConnected and Count alike: as the equivalence closure of the valid pairs does |
| `Connectivity.MergeRepresents` | collection/unionfind/unionfind.go:62-67 | joining two classes, whichever representative survives, is exactly what one more edge does to connectivity |
| `Connectivity.JoiningEdgeCount` | collection/unionfind/unionfind.go:69 | an edge between two classes lowers the number of classes by exactly one |
| `Connectivity.InsideEdgeCount` | collection/unionfind/unionfind.go:58-60 | an edge inside a class changes neither connectivity nor the number of classes |
| `Forest.NoCycles` | collection/unionfind/unionfind.go:138-140 | climbing from any element reaches its representative in exactly its depth, and the only cycles are the self-loops of roots |
| `Forest.LinkBySize` | collection/unionfind/unionfind.go:199-205 | hanging the component that is not larger below the other keeps sizes exact and 2^depth within the size |
| `Forest.DepthIsLogarithmic` | collection/unionfind/unionfind.go:215-217 | 2^depth of an element is at most the size of its root, which is at most n |
| `Forest.RootSizesSum` | collection/unionfind/unionfind.go:160-164 | the sizes stored at roots sum to the number of elements |
| `Clustering.GroupByDistance` | common/cluster/group.go:16-42 | the groups are non-empty, partition the input positions, keep input order inside a group, and two positions share one exactly when the proximity graph connects them |
| `Clustering.UniteNear` | common/cluster/group.go:18-26 | after the nested loops the structure holds exactly the pairs within the threshold |
| `Clustering.Bucket` | common/cluster/group.go:28-35 | one bucket for each representative, holding its items in input order |
| `Clustering.SharedGroupIsChain` | common/cluster/group.go:16-42 | for a symmetric distance, sharing a group means being joined by a list of positions whose neighbours are within the threshold |
| `Clustering.NoGaps` | detector/internal/position/position.go:14-16 | on a line, a member that is not the rightmost of its group has another member at most the threshold to its right |
| `Clustering.OutsideSpan` | detector/internal/position/position.go:14-16 | a member of another group lies further than the threshold from the whole span of a group |
| `Clustering.SpansApart` | detector/internal/position/position.go:14-16 | the spans of two groups are more than the threshold apart |
| `ActorLock.LockListMeaning` | metatube-work/plugin/Jellyfin.Plugin.MetaTube/Helpers/ActorCreationLock.cs:20-26 | the list of semaphores is strictly sorted, without repeats, and names exactly the classes of the non-blank names |
| `Spacing.SpacingForgotten` | metatube-work/plugin/Jellyfin.Plugin.MetaTube/Helpers/ActorCreationLock.cs:64-68 | normalising a key keeps its words and forgets all other spacing; doing it again changes no word |
| `Spacing.WordsOfWeave` | metatube-work/plugin/Jellyfin.Plugin.MetaTube/Helpers/ActorCreationLock.cs:64-68 | splitting at white space finds the words, whatever the gaps between and around them are |
| `Spacing.Woven` | metatube-work/plugin/Jellyfin.Plugin.MetaTube/Helpers/ActorCreationLock.cs:64-68 | every text is woven of its words and gaps: nothing but white space is dropped, and a gap parts every two words |
| `Spacing.BlankMeaning` | metatube-work/plugin/Jellyfin.Plugin.MetaTube/Helpers/ActorCreationLock.cs:21 | a name is blank exactly when it has no words |
| `ActorLock.OneClassExactly` | metatube-work/plugin/Jellyfin.Plugin.MetaTube/Helpers/ActorCreationLock.cs:22-25 | two names contend for one semaphore exactly when their normalised words, joined by single blanks, agree character by character under upper-casing; in particular when they have the same words |
| `ActorLock.OneClassHoweverSpaced` | metatube-work/plugin/Jellyfin.Plugin.MetaTube/Helpers/ActorCreationLock.cs:64-68 | the same words with any white space between and around them are one class |
| `ActorLock.InvStep` | metatube-work/plugin/Jellyfin.Plugin.MetaTube/Helpers/ActorCreationLock.cs:17-62 | every step keeps: each caller holds a sorted list that is a prefix of its lock list while acquiring and while releasing in reverse, and all of it while its lock object lives, and each count is 1 minus its holders |
| `ActorLock.InvPut` | metatube-work/plugin/Jellyfin.Plugin.MetaTube/Helpers/ActorCreationLock.cs:58-62 | a release finds its semaphore at zero, so none is ever overfilled |
| `ActorLock.MutualExclusion` | metatube-work/plugin/Jellyfin.Plugin.MetaTube/Helpers/ActorCreationLock.cs:7-8 | in every run, with cancellation at any wait, no semaphore has two holders |
| `ActorLock.LiveLockHoldsAll` | metatube-work/plugin/Jellyfin.Plugin.MetaTube/Helpers/ActorCreationLock.cs:20-37 | a live lock object holds exactly the classes of the non-blank names its caller came with; every caller holds a prefix of that list |
| `ActorLock.LiveLocksExclude` | metatube-work/plugin/Jellyfin.Plugin.MetaTube/Helpers/ActorCreationLock.cs:17-62 | while a lock object lives no other caller has a semaphore of a class it was asked for; two live lock objects never share a name class |
| `ActorLock.OneLockForOneActor` | metatube-work/plugin/Jellyfin.Plugin.MetaTube/Helpers/ActorCreationLock.cs:7-25 | two live lock objects that were asked for one actor, however each caller spelled spaces and letter case, are one |
| `ActorLock.StepsOffered` | metatube-work/plugin/Jellyfin.Plugin.MetaTube/Helpers/ActorCreationLock.cs:28-62 | a semaphore can be taken exactly when nobody holds it; a waiting caller can always be cancelled; a complete list is returned, a live lock disposed of, and what is held released |
| `ActorLock.WaitsForward` | metatube-work/plugin/Jellyfin.Plugin.MetaTube/Helpers/ActorCreationLock.cs:31-35 | a blocked caller waits for another caller, who, if blocked too, wants a later key |
| `ActorLock.DeadlockFree` | metatube-work/plugin/Jellyfin.Plugin.MetaTube/Helpers/ActorCreationLock.cs:17-62 | in every reachable state with an unfinished caller some caller can move without being cancelled |
| `ActorLock.RunsAreBounded` | metatube-work/plugin/Jellyfin.Plugin.MetaTube/Helpers/ActorCreationLock.cs:17-62 | without new arrivals a run is no longer than the work left at its start |
| `ActorLock.MaximalRunsFinish` | metatube-work/plugin/Jellyfin.Plugin.MetaTube/Helpers/ActorCreationLock.cs:28-62 | a run that cannot go on has finished every caller and returned every semaphore |
| `Levenshtein.Distance` | metatube-work/plugin/Jellyfin.Plugin.MetaTube/Helpers/Levenshtein.cs:5-53 | the one-row loop computes the two-dimensional edit distance of all strings |
| `Levenshtein.NextRow` | metatube-work/plugin/Jellyfin.Plugin.MetaTube/Helpers/Levenshtein.cs:19-50 | one round of the outer loop turns the table's row i into row i + 1, in place |
| `Levenshtein.Cell` | metatube-work/plugin/Jellyfin.Plugin.MetaTube/Helpers/Levenshtein.cs:28-47 | the entry that ignores both neighbours on a match, and in column 0 starts from i instead of i + 1, is the table's entry |
| `Levenshtein.Neighbours` | metatube-work/plugin/Jellyfin.Plugin.MetaTube/Helpers/Levenshtein.cs:32-45 | entries next to each other differ by at most one |
| `Levenshtein.MatchIsDiagonal` | metatube-work/plugin/Jellyfin.Plugin.MetaTube/Helpers/Levenshtein.cs:32-45 | on equal characters the diagonal alone decides |
| `Levenshtein.TableIsLev` | metatube-work/plugin/Jellyfin.Plugin.MetaTube/Helpers/Levenshtein.cs:12-17 | the table by prefix lengths is the recurrence on prefixes |
| `Levenshtein.Symmetric` | metatube-work/plugin/Jellyfin.Plugin.MetaTube/Helpers/Levenshtein.cs:5-53 | the distance is symmetric |
| `Levenshtein.ZeroIffEqual` | metatube-work/plugin/Jellyfin.Plugin.MetaTube/Helpers/Levenshtein.cs:5-53 | the distance is zero exactly on equal strings |
| `Levenshtein.Triangle` | metatube-work/plugin/Jellyfin.Plugin.MetaTube/Helpers/Levenshtein.cs:5-53 | the triangle inequality |
| `Levenshtein.NoShorter` | metatube-work/plugin/Jellyfin.Plugin.MetaTube/Helpers/Levenshtein.cs:5-53 | no list of single insertions, deletions and replacements from one string to the other is shorter than the distance |
| `Levenshtein.Attained` | metatube-work/plugin/Jellyfin.Plugin.MetaTube/Helpers/Levenshtein.cs:5-53 | some such list is exactly as long as the distance |
| `Levenshtein.CalculateTitleSimilarity` | metatube-work/plugin/Jellyfin.Plugin.MetaTube/Providers/MovieProvider.cs:558-581 | the similarity of the normalised keys, 0 when one of them is blank |
| `Levenshtein.SimilarityLaws` | metatube-work/plugin/Jellyfin.Plugin.MetaTube/Providers/MovieProvider.cs:563-570 | similarity is symmetric, lies in [0, 1], and is 1 exactly for equal non-blank keys |
| `Levenshtein.SimilarityMeaning` | metatube-work/plugin/Jellyfin.Plugin.MetaTube/Providers/MovieProvider.cs:563-570 | similarity times the length of both keys is that length less twice the distance, or 0 when that is negative or a key has no words |
| `SingleFlight.Single.constructor` | common/singledo/singledo.go:63-65 | no run, no result, the zero time |
| `SingleFlight.Single.Enter` | common/singledo/singledo.go:31-47 | inside the window of the last run the cache, else to join the call in flight, else a call of one's own, and the fields each way out leaves |
| `SingleFlight.Single.Publish` | common/singledo/singledo.go:51-55 | the second critical section: the run ends, its result and start time are stored |
| `SingleFlight.Single.Reset` | common/singledo/singledo.go:59-61 | clears only the time of the last run |
| `SingleFlight.Do` | common/singledo/singledo.go:30-57 | a lone caller gets the cached result inside the window and otherwise runs fn, whose result and start time are stored |
| `SingleFlight.OneByOne` | common/singledo/singledo.go:30-57 | calls one at a time: each returns the outcome of the latest run still inside its window, or of its own, and runs start at least wait apart |
| `SingleFlight.InvRun` | common/singledo/singledo.go:30-61 | every interleaving keeps the invariant of fields, runs and callers; when every Reset is harmless it keeps the spacing, too |
| `SingleFlight.OneRunAtATime` | common/singledo/singledo.go:38-49 | in every interleaving at most one fn runs at a time |
| `SingleFlight.RunsAreSpaced` | common/singledo/singledo.go:32-36 | without Reset any two runs start at least wait apart |
| `SingleFlight.HarmlessResetsKeepSpacing` | common/singledo/singledo.go:30-61 | with Resets that are all harmless any two runs start at least wait apart |
| `SingleFlight.ResetHarmlessExactly` | common/singledo/singledo.go:59-61 | a Reset leaves the runs spaced in every continuation without another one exactly when a run is in flight, none was published, or the window of the last one is over |
| `SingleFlight.ReturnedResult` | common/singledo/singledo.go:33-56 | a caller returns its own run's outcome, made when none was in flight as it came; or the outcome of the run that was in flight as it came; or values read from published runs that, without Reset, started less than wait before its check |
| `SingleFlight.CallerTold` | common/singledo/singledo.go:31-47 | in every state of the invariant a new caller is told to use the cache only inside the window of the last published run, to join only the run in flight, and to run only when none is |
| `SingleFlight.OutcomeOfFn` | common/singledo/singledo.go:48-49 | the outcome of a run is what fn returned in the caller that makes it, at some earlier step |
| `SingleFlight.StepsOffered` | common/singledo/singledo.go:30-61 | time may pass, anyone may call or reset, fn may return anything, and a caller that joined wakes exactly when the run has its outcome |
| `SingleFlight.NobodyStuck` | common/singledo/singledo.go:40-41 | a caller that has not returned can always be brought forward by some caller's step |
| `SingleFlight.ResetBreaksSpacing` | common/singledo/singledo.go:59-61 | a run with Reset in which two fns start less than wait apart |
| `WeightedSlices.WeightedSlice.constructor` | collection/slices/wslice.go:15-20 | shares both slices with the caller |
| `WeightedSlices.WeightedSlice.Swap` | collection/slices/wslice.go:31-34 | exchanges two objects together with their weights |
| `WeightedSlices.WeightedSlice.Append` | collection/slices/wslice.go:36-39 | adds an object and its weight at the end |
| `WeightedSlices.WeightedSlice.SortStable` | collection/slices/wslice.go:45-48 | objects and weights end in the one stable order, heaviest first, by one common permutation |
| `WeightedSlices.UniqueOrder` | collection/slices/wslice.go:26-29 | the stable descending order of a weight list is unique |
| `WeightedSlices.Covers` | collection/slices/wslice.go:45-48 | every position occurs in the order: nothing is lost by sorting |
| `FaceCrop.WeightedAverageBy` | detector/internal/position/average.go:24-55 | mixed dimensions are refused; otherwise each coordinate is the weighted sum over the total weight, or the result is empty without positive total |
| `FaceCrop.WeightedAverageVector` | detector/internal/position/average.go:16-22 | the average of vectors on one axis: no coordinate without positive total weight, otherwise one that lies in their span |
| `FaceCrop.AverageInSpan` | detector/internal/position/average.go:16-22 | the weighted average of a group lies between two of its members |
| `FaceCrop.SortGroupsByWeight` | common/cluster/sort.go:19-44 | sorts the caller's groups in place into the stable descending order of their total weights |
| `FaceCrop.FrontIsHeaviest` | common/cluster/sort.go:19-44 | the group sorted to the front has maximal total weight and is the first such |
| `FaceCrop.ClusterFaceVectors` | detector/compute.go:46-58 | groups the faces as chains of faces that are at most a twentieth of the image apart: in columns on axis 0, in rows on axis 1 |
| `FaceCrop.NearFaces` | detector/compute.go:23-32 | the proximity graph of the vectors joins exactly the faces at most a twentieth of the width apart in columns, or of the height in rows |
| `FaceCrop.MaximalClusters` | detector/compute.go:46-58 | each group is a maximal cluster on the axis: sorted neighbours at most 0.05 apart inside, more than 0.05 between groups |
| `FaceCrop.GetDominantVector` | detector/compute.go:60-69 | nothing for no groups; otherwise the weighted average of the first group of maximal weight, which lies in its span, when that weight is positive |
| `FaceCrop.FindPrimaryFaceAxisRatio` | detector/detector.go:119-151 | found exactly when some face has positive size times quality; then position times extent is the mean column or row of the faces of a heaviest cluster, weighed by size times quality, and lies between two of them; a wide image is resized first |
| `FaceCrop.HeaviestSign` | detector/compute.go:60-69 | the heaviest group has positive weight exactly when some face has |
| `FaceCrop.CropImagePosition` | imageutil/crop.go:18-36 | outside [0.01, 100] the whole image; otherwise a window that slides along the axis the detector chooses and spans the other axis |
| `FaceCrop.WindowCovers` | imageutil/crop.go:28-32 | the clamped window stays inside the extent, starts half its size before the pixel at floor(extent x position) unless an edge stops it, and covers that pixel, or the last one |
| `FaceCrop.CropMeaning` | imageutil/crop.go:18-36 | for every position the crop lies inside the image, has the wanted aspect ratio up to a pixel, is centred on the position as far as the edges allow, and shows the pixel there when it is one of the image; it is empty exactly when not one column, or row, of that ratio fits |
| `FaceCrop.WindowAspect` | imageutil/crop.go:28-31 | the window is the largest of the wanted aspect ratio that spans the other axis |
| `FaceCrop.AutoCrop` | engine/image.go:82-90 | end to end, for every image, ratio and default: the crop is the whole image or stays inside it, of the wanted aspect ratio and centred on a position; that is the default when no face counts and otherwise the weighted mean of a heaviest cluster of faces; in an image not wider than 650 a crop that is not empty shows a place between two of those faces, and so a single face itself |
| `WideImages.AxisByAspect` | detector/compute.go:34-44 | the dominant axis is the horizontal one exactly when the wanted ratio is below the image's aspect ratio, truncation or not |
| `WideImages.WideAxesDiffer` | detector/detector.go:121-137 | an image of 1300 by 1299 is resized to 650 by 650, and at ratio 1 the detector measures down it while the crop moves across |
| `WideImages.AxesAgreeExactly` | detector/detector.go:121-137 | for every image and ratio: the two choose different axes exactly when the ratio lies between the aspect ratios of the image and of its resized copy, the smaller one included |
| `WideImages.AlwaysAgreeExactly` | detector/detector.go:121-137 | they agree at every ratio exactly when the resize keeps the proportions |
| `WideImages.AcrossLosesLittle` | imageutil/crop.go:28-29 | when the crop moves across but the detector measured down, the window leaves out less than ratio / 1300 of the width, and a pixel |
| `WideImages.DownLosesLittle` | imageutil/crop.go:30-32 | when the crop moves down but the detector measured across, the window leaves out fewer rows than width / 1300, and one |
| `Listings.SameGroup` | common/cluster/group.go:34-39 | every group of one listing of the map is a group of any other |
| `Listings.ListingIrrelevantExactly` | common/cluster/group.go:34-39 | every listing of an image's clusters gives the same position exactly when all heaviest clusters do, for instance when there is only one |
| `Listings.TieIsUndecided` | common/cluster/group.go:34-39 | two faces of one weight, at 0.1 and 0.9: the position is that of whichever is listed first |
| `OrderedSets.OrderedSet.Add` | collection/sets/orderedset.go:39-43 | adds each item under its hash: first position, last value |
| `OrderedSets.OrderedSet.Del` | collection/sets/orderedset.go:45-49 | exactly the keys of the items go; the others keep their values and their order |
| `OrderedSets.DelMeaning` | collection/sets/orderedset.go:45-49 | a key remains exactly when it was stored and no item has it, with its value, and the order is the old one without the removed keys |
| `OrderedSets.OrderedSet.AsSlice` | collection/sets/orderedset.go:51-63 | the stored values in key order |
| `OrderedSets.KeyedMeaning` | collection/sets/orderedset.go:39-43 | a key is stored exactly when an item has it, and its value is the last such item |
| `OrderedSets.OrderMeaning` | collection/sets/orderedset.go:51-63 | keys come out in the order of their first items |
| `SearchMerge.Receive` | engine/movie.go:126-142 | the receiving loop concatenates the answers that are no errors, in order of arrival |
| `SearchMerge.SearchMovieAll` | engine/movie.go:149-199 | an empty keyword is an error, and so is nothing answered and no row; otherwise exactly the complete results of known providers that no later one with the same provider and id run together replaces, rows behind answers, each once, by similarity x priority, ties in gathering order |
| `SearchMerge.Finish` | engine/movie.go:162-181 | the deferred step: of results with the same provider and id run together the last stays, incomplete ones and unknown providers go, and the rest is ranked by similarity x priority, ties in gathering order |
| `SearchMerge.GatheredInOrder` | collection/sets/orderedset.go:39-43 | each arrival lays its provider's own key map over what came before |
| `SearchMerge.ArrivalOrderIrrelevant` | engine/movie.go:90-199 | without a clash, two answers that store different results under one key that no row has, one of which would be kept, any two arrival orders give the same results with the same score at every rank |
| `SearchMerge.ResultsIndependentExactly` | engine/movie.go:149-199 | all arrival orders keep the same results exactly when there is no clash |
| `SearchMerge.LaterAnswerWins` | engine/movie.go:162-165 | provider "A" with id "BC" and provider "AB" with id "C": a search returns only the one that arrives later |
| `SearchMerge.AgreementIsNeeded` | engine/movie.go:90-199 | the answers agree on shared keys exactly when all arrival orders give the same key map, before database rows and filtering |
| `Alphanum.ReadChunk` | metatube-work/plugin/Jellyfin.Plugin.MetaTube/Extensions/EmbyExtensions.cs:79-93 | the inner loop reads exactly the maximal run of digits or non-digits |
| `Alphanum.CompareValues` | metatube-work/plugin/Jellyfin.Plugin.MetaTube/Extensions/EmbyExtensions.cs:63-117 | the two-index loop compares lexicographically by the lists of chunks; null equals everything |
| `Ordinal.LessMeaning` | metatube-work/plugin/Jellyfin.Plugin.MetaTube/Extensions/EmbyExtensions.cs:108 | one text comes before another exactly when, at the first place where they differ, it ends or has the smaller code unit |
| `Alphanum.CompareDecided` | metatube-work/plugin/Jellyfin.Plugin.MetaTube/Extensions/EmbyExtensions.cs:63-117 | what decides: the first chunks that do not rank alike, where the list that ends comes first, a number too large gives 0, other numbers are ordered by value and other chunks by code units |
| `Alphanum.NaturalOrder` | metatube-work/plugin/Jellyfin.Plugin.MetaTube/Extensions/EmbyExtensions.cs:96-104 | behind any common text that does not end in a digit, numbers are ordered by value |
| `Alphanum.EqualLengths` | metatube-work/plugin/Jellyfin.Plugin.MetaTube/Extensions/EmbyExtensions.cs:98-104 | numbers of one length are ordered as texts |
| `Alphanum.ShorterIsSmaller` | metatube-work/plugin/Jellyfin.Plugin.MetaTube/Extensions/EmbyExtensions.cs:98-104 | without leading zeros the shorter number is the smaller |
| `Alphanum.LeadingZero` | metatube-work/plugin/Jellyfin.Plugin.MetaTube/Extensions/EmbyExtensions.cs:98-104 | leading zeros do not count |
| `Alphanum.NineBeforeTen` | metatube-work/plugin/Jellyfin.Plugin.MetaTube/Extensions/EmbyExtensions.cs:63-117 | "9" comes before "10", though as a text it comes after |
| `Alphanum.ChunksAreChunked` | metatube-work/plugin/Jellyfin.Plugin.MetaTube/Extensions/EmbyExtensions.cs:54-61 | the chunks are non-empty, alternate between digits and others, and give the string back |
| `Alphanum.ChunksOfFlatten` | metatube-work/plugin/Jellyfin.Plugin.MetaTube/Extensions/EmbyExtensions.cs:54-61 | that decomposition is unique |
| `Alphanum.TotalPreorder` | metatube-work/plugin/Jellyfin.Plugin.MetaTube/Extensions/EmbyExtensions.cs:63-117 | swapping the arguments flips the sign, and the order is transitive through every string whose numbers fit an int |
| `Alphanum.TransitiveExactlyWhenFitting` | metatube-work/plugin/Jellyfin.Plugin.MetaTube/Extensions/EmbyExtensions.cs:98-100 | a value is consistently ordered among all strings and null exactly when it is not null and its numbers fit an int |
| `Alphanum.UnfitBreaks` | metatube-work/plugin/Jellyfin.Plugin.MetaTube/Extensions/EmbyExtensions.cs:98-100 | around a number too large for an int, a string compares equal to two strings that differ |
| `Alphanum.TooLargeForInt` | metatube-work/plugin/Jellyfin.Plugin.MetaTube/Extensions/EmbyExtensions.cs:98-100 | "2147483648" compares equal to both "2" and "1" |
| `Alphanum.NullIsBetween` | metatube-work/plugin/Jellyfin.Plugin.MetaTube/Extensions/EmbyExtensions.cs:65-66 | null compares equal to two strings that differ |
| `ProviderIds.QueryRoundTrip` | engine/providerid/providerid.go:42-46 | query unescaping undoes escaping, whatever text follows (section 2.1 of RFC 3986) |
| `ProviderIds.DataRoundTrip` | metatube-work/plugin/Jellyfin.Plugin.MetaTube/Helpers/ProviderId.cs:28 | data unescaping undoes escaping, whatever text follows |
| `ProviderIds.EscapeMeaning` | engine/providerid/providerid.go:62-64 | letters, digits and four signs stand for themselves, a space for a plus sign in a query, any other byte for a percent sign and its two digits in base 16 (section 2.1 of RFC 3986) |
| `ProviderIds.EscapeConcat` | engine/providerid/providerid.go:62-64 | escaping goes byte by byte |
| `ProviderIds.DigitsRead` | engine/providerid/providerid.go:42-46 | two digits in base 16 of either case behind a percent sign are read as one byte |
| `ProviderIds.Incomplete` | engine/providerid/providerid.go:42-46 | a percent sign without two such digits is an error in a query and stands for itself in data |
| `ProviderIds.TrimMeaning` | engine/providerid/providerid.go:80-84 | wherever the pattern matches, that is the suffix which is removed |
| `ProviderIds.PatternMeaning` | engine/providerid/providerid.go:80 | the suffix is 0, 1 or a bar, alone or with a point and digits |
| `ProviderIds.EscapedPosition` | engine/providerid/providerid.go:80-84 | an escaped id looks like a position exactly when the id is 0 or 1, optionally with a point and digits |
| `ProviderIds.PrintParse` | engine/providerid/providerid.go:25-64 | for every pair: printing and parsing gives the pair back exactly when the provider is non-empty without a colon and the id is non-empty and no position |
| `ProviderIds.PrintPositionParse` | engine/providerid/providerid.go:36-48 | with a position appended the pair comes back exactly when neither part is empty and the provider holds no colon |
| `PluginIds.ToText` | metatube-work/plugin/Jellyfin.Plugin.MetaTube/Helpers/ProviderId.cs:34-44 | the list built step by step, joined, is the text of the four shapes |
| `PluginIds.SplitJoin` | metatube-work/plugin/Jellyfin.Plugin.MetaTube/Helpers/ProviderId.cs:15 | splitting joined parts without colons gives them back |
| `PluginIds.StoredText` | metatube-work/plugin/Jellyfin.Plugin.MetaTube/Extensions/ProviderIdsExtensions.cs:14-25 | the text stored: provider and escaped id, the position if there is one, and True or False, behind two colons when there is no position |
| `PluginIds.ReadParts` | metatube-work/plugin/Jellyfin.Plugin.MetaTube/Helpers/ProviderId.cs:13-32 | reading any text by its parts: a third part that is neither number nor flag makes everything behind the provider the id; otherwise it is the position if it is a number, and the fourth part the flag if it is one |
| `PluginIds.FlagMeaning` | metatube-work/plugin/Jellyfin.Plugin.MetaTube/Helpers/ProviderId.cs:46-67 | the six words read as true and the six read as false |
| `PluginIds.StoreRead` | metatube-work/plugin/Jellyfin.Plugin.MetaTube/Extensions/ProviderIdsExtensions.cs:9-25 | for positions that are doubles: storing and reading gives all four fields back exactly when the provider holds no colon, and there is no update or there is a position |
| `PluginIds.SaneNumbersExist` | metatube-work/plugin/Jellyfin.Plugin.MetaTube/Helpers/ProviderId.cs:69-72 | the assumptions about printing and parsing doubles can be met |
| `PluginIds.ReadSwallowsUpdate` | metatube-work/plugin/Jellyfin.Plugin.MetaTube/Helpers/ProviderId.cs:16-23 | with a provider without a colon, an update without a position ends up inside the id |
| `PluginIds.EngineReads` | engine/providerid/providerid.go:36-48 | the Go engine reads provider and id out of a plugin text without update exactly when both are non-empty, the provider holds no colon, and the position, if any, prints as one, or without one the id is none |
| `ActorStore.Engine.Query` | engine/actor.go:144-151 | a row of the provider with the id up to case, or none when there is none |
| `ActorStore.Engine.Inject` | engine/actor.go:163-170 | external images go once before the record's own, for Japanese providers only; otherwise nothing changes |
| `ActorStore.Engine.GetActorInfo` | engine/actor.go:153-187 | success means a valid record; a lazy hit leaves the store alone; otherwise exactly one answer is taken from the provider, and a valid one is stored as it came, before injection; invalid and failed answers change nothing |
| `ActorStore.RunThenGet` | engine/actor.go:153-187 | after any run of lazy and forced gets every row is an old one or a valid answer to one of the requests, as given; a lazy hit is such a row with the external images in front once |
| `ActorStore.RefreshThenRead` | engine/actor.go:171-186 | what a forced get returned valid is found by the next lazy get, unchanged when no other row has that id |
| `SourceOrder.SortedMeaning` | metatube-work/stack/actor-resolver/resolver.py:428-429 | the sort keeps all records and ascends in rank |
| `SourceOrder.SortStable` | metatube-work/stack/actor-resolver/resolver.py:428-429 | records of one rank keep their order of arrival |
| `SourceOrder.SortForgetsArrival` | metatube-work/stack/actor-resolver/resolver.py:428-429 | the sorted list is the same for all orders of arrival exactly when records of equal rank are equal |
| `SourceOrder.FirstIsPreferred` | metatube-work/stack/actor-resolver/resolver.py:390-403 | the first value in the sorted list comes from the record of least rank, earliest within its rank; none only when no record has a value |
| `SourceOrder.IndexMeaning` | metatube-work/stack/actor-resolver/resolver.py:428-429 | a provider ranks by its first place in the source order, a missing one behind all |
| `SourceOrder.DateRead` | metatube-work/stack/actor-resolver/resolver.py:337-339 | a text that starts with yyyy-mm-dd reads as that date, but for the year 0001 |
| `SourceOrder.OnlyDatesRead` | metatube-work/stack/actor-resolver/resolver.py:337-339 | nothing else reads as a date |
| `ActorMerge.Merge` | metatube-work/stack/actor-resolver/resolver.py:427-544 | the loops build exactly the merged record of the sorted list |
| `ActorMerge.ArrivalIrrelevant` | metatube-work/stack/actor-resolver/resolver.py:427-544 | with distinct providers, all in the source order, the merged record does not depend on the order of arrival |
| `ActorMerge.FirstOfTwoSorts` | metatube-work/stack/actor-resolver/resolver.py:406-412 | sorting again by preferred providers picks by preference first and source order second |
| `ActorMerge.FieldMeaning` | metatube-work/stack/actor-resolver/resolver.py:469-480 | every field but the birthday is the value of the best record that has one: for debut fields one of Minnano-AV before all others, otherwise by source order; it is credited to its provider, and empty and uncredited only when no record has a value |
| `ActorMerge.BirthdayMeaning` | metatube-work/stack/actor-resolver/resolver.py:447-482 | the birthday is the first date in source order, credited to its provider |
| `ActorMerge.DebutStays` | metatube-work/stack/actor-resolver/resolver.py:521 | reading the debut date as a date again at the end changes nothing |
| `ActorMerge.ConflictRecorded` | metatube-work/stack/actor-resolver/resolver.py:500-508 | a conflict is recorded exactly for birthday, blood type, cup size, measurements and height, when two records hold values that print differently; under each value stand, in order, the providers that hold it |
| `ActorMerge.ClaimsMeaning` | metatube-work/stack/actor-resolver/resolver.py:500-508 | under each printed value stand, in order, the providers that hold it |
| `ActorMerge.CleanAliases` | metatube-work/stack/actor-resolver/resolver.py:307-318 | the loop keeps the first of each case-folded class of the cleaned names |
| `ActorMerge.DistinctMeaning` | metatube-work/stack/actor-resolver/resolver.py:438-440 | of a list of names the first of each key is kept, in order, and all of those |
| `MergedLists.NamesRepresented` | metatube-work/stack/actor-resolver/resolver.py:438-440 | every name and alias of every record is represented: one that folds alike becomes nothing or a merged alias, when a name becomes its trimmed text or, with a Latin letter, the Latin part of the canonical name |
| `MergedLists.AliasMeaning` | metatube-work/stack/actor-resolver/resolver.py:307-318 | every merged alias is what some name of a record becomes; none is empty, and no two fold alike |
| `MergedLists.NameMeaning` | metatube-work/stack/actor-resolver/resolver.py:445-452 | the canonical name is chosen from the sorted records and the list of all their names, one of each folding |
| `MergedLists.MediaMeaning` | metatube-work/stack/actor-resolver/resolver.py:441-443 | the merged images, and likewise the tags, are the non-empty ones of all records, each once, by the first record that has it and inside a record as it lists them |
| `MergedLists.IdMeaning` | metatube-work/stack/actor-resolver/resolver.py:510-517 | the merged id and home page are those of AV-LEAGUE, else Gfriends, else XsList, else Minnano-AV, else of the first source |
| `MergedLists.SourcesMeaning` | metatube-work/stack/actor-resolver/resolver.py:434-437 | the ids are those of all providers, of several records of one provider the last; links likewise, of the last with a home page; sources are listed in source order |
| `Spacing.JoinShrinks` | metatube-work/plugin/Jellyfin.Plugin.MetaTube/Providers/MovieProvider.cs:516-520 | normalising a name gives no longer text: the pieces are words |
| `Spacing.SplitJoin` | metatube-work/plugin/Jellyfin.Plugin.MetaTube/Providers/MovieProvider.cs:416 | splitting joined words gives the words back |
| `PersonIndex.PartShrinks` | metatube-work/plugin/Jellyfin.Plugin.MetaTube/Providers/MovieProvider.cs:410-411 | a part of a normalised name does not grow when normalised again, so key generation ends |
| `PersonIndex.PlainKeys` | metatube-work/plugin/Jellyfin.Plugin.MetaTube/Providers/MovieProvider.cs:400-419 | the keys of a name that is not canonical: none without words, else the name with single blanks, and its reversal exactly when it has two words without kana or Chinese characters |
| `PersonIndex.CanonicalParts` | metatube-work/plugin/Jellyfin.Plugin.MetaTube/Providers/MovieProvider.cs:406-407 | a western name, blanks, and in parentheses JAP in any case, a year or a question mark, and an original name: such a text is canonical, and these are the parts found |
| `PersonIndex.PartsOfCanonical` | metatube-work/plugin/Jellyfin.Plugin.MetaTube/Providers/MovieProvider.cs:406-407 | every canonical name is made of such parts |
| `PersonIndex.CanonicalKeys` | metatube-work/plugin/Jellyfin.Plugin.MetaTube/Providers/MovieProvider.cs:405-411 | the keys of a canonical name are itself, then those of the western part, then those of the original part |
| `PersonIndex.KeysForgetSpacing` | metatube-work/plugin/Jellyfin.Plugin.MetaTube/Providers/MovieProvider.cs:516-520 | only the words of a name matter to its keys |
| `PersonIndex.HoldsMeaning` | metatube-work/plugin/Jellyfin.Plugin.MetaTube/Providers/MovieProvider.cs:369-381 | a person with a name holds the keys of the name, of the original title unless it is blank, and of every alias |
| `PersonIndex.AddPersonIdentity` | metatube-work/plugin/Jellyfin.Plugin.MetaTube/Providers/MovieProvider.cs:395-398 | every lookup afterwards is the old one, or the new name for a key that had no owner |
| `PersonIndex.GetPersonIndex` | metatube-work/plugin/Jellyfin.Plugin.MetaTube/Providers/MovieProvider.cs:359-384 | the first-wins index answers every key as a linear scan over the people does |
| `PersonIndex.FindExisting` | metatube-work/plugin/Jellyfin.Plugin.MetaTube/Providers/MovieProvider.cs:311-316 | the lookup through the index finds what scanning the people for each key in turn finds |
| `PersonIndex.ScanKeysMeaning` | metatube-work/plugin/Jellyfin.Plugin.MetaTube/Providers/MovieProvider.cs:311-316 | for the first key that anyone holds the name of its earliest holder is found; nothing only when no key is held |
| `PersonIndex.TwoWordKeys` | metatube-work/plugin/Jellyfin.Plugin.MetaTube/Providers/MovieProvider.cs:414-418 | the keys of a two-word Latin name are the name and its reversal |
| `PersonIndex.ReversalFindsAlike` | metatube-work/plugin/Jellyfin.Plugin.MetaTube/Providers/MovieProvider.cs:414-418 | a two-word Latin name and its reversal are found or missed together |
| `PersonIndex.CanonicalFound` | metatube-work/plugin/Jellyfin.Plugin.MetaTube/Providers/MovieProvider.cs:406-413 | a canonical name is found exactly when someone holds it as it stands or one of its parts is found |
| `PersonIndex.CanonicalReversalFindsAlike` | metatube-work/plugin/Jellyfin.Plugin.MetaTube/Providers/MovieProvider.cs:406-418 | a canonical name and its plain reversal are found alike exactly when someone holds the name, or the reversal is held exactly when a part is found |
| `PersonIndex.PartOnly` | metatube-work/plugin/Jellyfin.Plugin.MetaTube/Providers/MovieProvider.cs:406-418 | in a library whose one person bears a part of it, the canonical name is found and its plain reversal missed |
| `PersonIndex.FooBar` | metatube-work/plugin/Jellyfin.Plugin.MetaTube/Providers/MovieProvider.cs:406-418 | the name Foo with the canonical tag of Bar, born 1990, is found through a person called Bar; its reversal is not |
| `PersonIndex.ReversalFindsAlikeExactly` | metatube-work/plugin/Jellyfin.Plugin.MetaTube/Providers/MovieProvider.cs:406-418 | in every library alike: exactly when the name is not of the canonical form with a year |

## Left out

- Rounding, NaN and infinities of `float64`: weights, distances, ratios and scores are reals.
- `int` overflow of union-find sizes and counts, and of pixel products: integers are unbounded.
- Vector distances in two or more dimensions, image rotation and face detection itself: the faces, with position, scale and quality, are given. The image library is not part of this model: its resize to width 650 is assumed to give the proportional height, rounded to the nearest pixel, halves up, and at least 1.
- `SortGroupsBySize` and `AverageVector`: easy relatives of the members modelled.
- Panics: a negative weight or a slice of mismatched lengths is excluded by a precondition, and vectors of mixed dimension give `None`.
- SearchMerge.AgreementIsNeeded: speaks of the map of the answers, before the database rows and the filter; `ResultsIndependentExactly` speaks of the results.
- Disposing one actor lock object twice, which would release its semaphores again: each is disposed at most once.
- Time in the multi-lock: the two-second delay before a release is a release at some later moment. All semaphores of one call are looked up in one step, where the code adds them to the concurrent dictionary name by name; the loop over `WaitAsync` and the reverse loop of `Release` are one action for each semaphore.
- A panicking function in `Single.Do`, and the race of `Reset`, which takes no lock: it is one atomic action. The two reads of the cached result are separate steps, so freshness is stated for each of them. A run's start is the time its caller read under the lock.
- Culture-dependent text comparison and Unicode decimal digits: chunks compare by code units and digits are ASCII. Text of the two provider-id forms is a sequence of bytes.
- .NET formatting and parsing of doubles: any pair of functions where printed doubles read back, hold no colon, and the empty text is no number.
- Case folding, Unicode normalisation and upper-casing: functions; the tag JAP ignores the case of ASCII letters only; normalisation is assumed idempotent and stable on parts and respaced words.
- `searchMovie`'s own fallback and `searchMovieFromDB`, the goroutines and the timeout: each provider's answer is given, in any order of arrival; the keyword is already trimmed.
- JSON marshalling of sets and provider ids.
- The database: rows by provider and id with a case-insensitive lookup; every save succeeds, where the code ignores a failed one. A provider that returns neither a record nor an error is not part of the actor store.
- The gfriends lookup is a fixed function of the name.
- `actor_override`, `western_name`, `original_name` and `place_of_birth` of the resolver: there is no override, the canonical name is a function of the sorted records and their aliases, and the expressions that trim an alias are functions, too. A number in a date field, which raises an error in the code, reads as no date.
- The split of a person's JAVAlsoKnownAs ids at commas, the five-minute expiry of the index and the online part of the actor lookup.
- PersonIndex.ReversalFindsAlikeExactly: assumes a case folding that keeps lengths, as an ordinal one does, a part that is more than blanks, and a reversal that is not canonical itself; `CanonicalFound` speaks of canonical names without these.
- Scrapers, HTTP, routes, translation, configuration and scheduled tasks.
