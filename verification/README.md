# Talipot core, modelled in Dafny

Talipot is a framework for analysing and drawing relational data. Its core
keeps graphs in a shared root storage. Subgraphs are views onto that
storage. Properties attach a value to every node and edge. Observers are
told about every change. Around the core sit utilities: the id managers
and containers, the plugin parameter lists and the TLP file format.

This project models that core as pure Dafny functions over immutable
datatypes. Each source file, or each class inside it, becomes one module:

- `PluginDoc`, `WithParameter`: the plugin parameter documentation written
  by `doc/python/gen_plugins_doc.py` and the parameter help of `WithParameter.cpp`.
- `TlpExport`: the TLP export of `TLPExport.cpp`: string escaping, the
  compact id ranges, the root graph's node and edge lines, and the
  reindexing of attribute values.
- `DataSet`: the typed key/value list of `DataSet.cpp` and its textual reader.
- `IdManager`, `IdContainers`: id allocation with reuse (`IdManager.h`,
  `IdManager.cpp`) and the dense id containers with a position index.
- `MutableContainers`: the vector/hash container of default and
  non-default values (`MutableContainer.cxx`).
- `Iterators`: the helpers of `Iterator.h`, over sequences.
- `PairingHeaps`: the pairing heap of the overlap-removal layout (`PairingHeap.cpp`).
- `GraphStorages`, `VectorGraphs`, `VectorGraphOps`, `VectorGraphDegrees`:
  the root storage (`GraphStorage.cpp`) and the standalone `VectorGraph`.
- `GraphViews`, `GraphIterators`, `GraphAbstracts`: subgraph views
  (`GraphView.h`, `GraphView.cpp`), their edge iterators and the subgraph tree.
- `Graphs`, `GraphTools`, `SimpleTests`, `SimpleCache`, `ConnectedTests`,
  `ConnectedCache`: traversals, selection closure, the simple-graph and
  connectivity tests and their per-graph result caches.
- `AbstractProperties`, `MinMaxProperties`: property values with defaults
  and the cached minimum and maximum per graph.
- `UpdatesRecorder`, `RecorderHierarchy`, `RecorderEvents`: what
  `GraphUpdatesRecorder` writes down while recording, for undo.
- `Observables`: the observation graph (`Observable.cpp`).
- `NormalizeString`, `ForceUtf8`: the BibTeX importer's string clean-up.
- `Settings`: the recent-documents list.
- `ParallelCoords`, `GlComposites`: the selection logic of the
  parallel-coordinates proxy and the layer composite's element bookkeeping.
- Shared helpers: `Wrappers` (`Option`, `Result`), `Seqs`, `Strs`, `Bytes`.

C++ unsigned integers are `nat`. `UINT_MAX` is written out as
`0xFFFF_FFFF` wherever the source uses it as a "no position" mark. A
`size() - 1` on an empty container is computed modulo 2^64, as for `size_t`. Where the
source mutates in place, the model returns the new state. Where it notifies
observers, the model returns or receives the event.

Where a contract exposed a defect in the source, the defect is written out
twice: once as the code reads and once as evidently intended. The table
under "Findings" lists both. The rest of the model uses the corrected member.

## Model

| member | source | states |
|---|---|---|
| Iterators.IteratorCount | library/talipot-core/include/talipot/Iterator.h:143-152 | the count returned is the number of elements the iterator yields |
| Iterators.IteratorCountCheck | library/talipot-core/include/talipot/Iterator.h:165-178 | true exactly when the requested minimum is at least one and the iterator yields that many elements; a minimum of zero answers false because the count is compared only after an increment |
| Iterators.IteratorEmpty | library/talipot-core/include/talipot/Iterator.h:191-194 | true exactly when the iterator yields nothing |
| Iterators.IteratorReduce | library/talipot-core/include/talipot/Iterator.h:232-241 | the value is the left fold of the reduce function over the yielded elements, starting from the initial value |
| Iterators.ReduceCounts | library/talipot-core/include/talipot/Iterator.h:143-152 | reducing with "add one" from zero gives the element count, so `iteratorReduce` and `iteratorCount` agree |
| Iterators.IteratorVector | library/talipot-core/include/talipot/Iterator.h:254-283 | the vector (and the list) holds exactly the yielded elements, in the order yielded |
| Iterators.IteratorSet | library/talipot-core/include/talipot/Iterator.h:296-304 | an element is in the set exactly when the iterator yields it |
| WithParameter.TypeLabel | library/talipot-core/src/WithParameter.cpp:59-80 | a built-in type gets its fixed label; another type gets its demangled name with one trailing `*` removed, and nothing else changed |
| WithParameter.ParameterTypename | library/talipot-core/src/WithParameter.cpp:54-81 | a `file::` or `anyfile::` name is a file path and a `dir::` name a directory path, whatever the declared type; otherwise the type's label is shown |
| WithParameter.CutAtSemicolon | library/talipot-core/src/WithParameter.cpp:99-101 | the result is the longest prefix free of `;`: the whole string when it has none, else the part before the first `;` |
| WithParameter.GenerateDoc | library/talipot-core/src/WithParameter.cpp:83-94 | help that already opens with the header is returned unchanged |
| WithParameter.GenerateDocTypeRowFirst | library/talipot-core/src/WithParameter.cpp:94-97 | any other help is generated as the header followed immediately by the type row |
| WithParameter.GetParameter | library/talipot-core/src/WithParameter.cpp:135-147 | null exactly when no parameter has the name; otherwise the first parameter carrying it |
| WithParameter.InputRequired | library/talipot-core/src/WithParameter.cpp:250-319 | true exactly when some parameter is not output-only or has one of the property types that need input |
| Settings.AddToRecentDocuments | library/talipot-gui/src/Settings.cpp:84-98 | the document heads the list, occurs nowhere else, and the other documents follow in their old order, cut back to twenty entries |
| Settings.RecentKeepsOrder | library/talipot-gui/src/Settings.cpp:87-95 | the documents after the head are a subsequence of the old list |
| Settings.RecentOnce | library/talipot-gui/src/Settings.cpp:87-91 | the added document occurs exactly once in the new list |
| Settings.RecentIdempotent | library/talipot-gui/src/Settings.cpp:84-98 | adding the same document twice in a row leaves the list as the first addition made it |
| Settings.TrimBack | library/talipot-gui/src/Settings.cpp:93-95 | the list is cut to a prefix of at most twenty entries and shorter lists are kept whole |
| Settings.ElementKey | library/talipot-gui/src/Settings.cpp:100-102 | the key is the configuration entry followed by `node` for nodes and `edge` for edges |
| Settings.ElementKeysDiffer | library/talipot-gui/src/Settings.cpp:100-102 | the node key and the edge key of the same entry never coincide |
| DataSet.Exists | library/talipot-core/src/DataSet.cpp:80-88 | true exactly when some entry carries the key |
| DataSet.GetData | library/talipot-core/src/DataSet.cpp:113-121 | null exactly when no entry carries the key or the first entry with the key holds a null pointer; otherwise the value of an entry with that key |
| DataSet.GetTypeName | library/talipot-core/src/DataSet.cpp:90-98 | the empty string when no entry carries the key, the stored value's type name otherwise; undefined where the entry holds a null pointer, which the source dereferences |
| DataSet.SetData | library/talipot-core/src/DataSet.cpp:123-140 | an existing key keeps its place and only its first entry changes; a new key is appended at the end; every key stays where it was; the value may be a null pointer |
| DataSet.GetAfterSet | library/talipot-core/src/DataSet.cpp:113-140 | the key exists afterwards and reads back the value just set, a null pointer included, and every other key reads as before |
| DataSet.Remove | library/talipot-core/src/DataSet.cpp:100-111 | the first entry with the key is cut out and the others keep their order; a missing key leaves the list alone |
| DataSet.RemoveAfterSet | library/talipot-core/src/DataSet.cpp:100-140 | setting a new key and removing it again gives the list back |
| DataSet.DistinctKeysKept | library/talipot-core/src/DataSet.cpp:100-140 | a list built only by setting and removing never holds a key twice, and a removed key is gone |
| DataSet.Register | library/talipot-core/src/DataSet.cpp:164-183 | the serializer is found afterwards under its type name and under its output type name; other type names keep their serializers |
| DataSet.SerializerOf | library/talipot-core/src/DataSet.cpp:335-340 | a serializer is found exactly when one is registered under the type name |
| DataSet.WriteEntries | library/talipot-core/src/DataSet.cpp:186-210 | undefined exactly when some entry holds a null pointer, as writing dereferences every value |
| DataSet.ReadHeader | library/talipot-core/src/DataSet.cpp:261-289 | a header read from just after an opening parenthesis consumes input and leaves the rest, or fails when the input ends too early |
| DataSet.ReadData | library/talipot-core/src/DataSet.cpp:213-248 | an output type name without a serializer reads nothing |
| DataSet.ReadEntry | library/talipot-core/src/DataSet.cpp:261-329 | an entry read whole consumes input, so the read loop progresses |
| DataSet.CloseEntry | library/talipot-core/src/DataSet.cpp:236-248 | a failure after the value was read still keeps that value, as the value is stored before the closing parenthesis is looked for |
| DataSet.ScanEntries | library/talipot-core/src/DataSet.cpp:250-333 | a successful scan stops at the end of the input or at a closing parenthesis left for the caller |
| DataSet.Read | library/talipot-core/src/DataSet.cpp:250-333 | reading never loses a key the data set already had |
| DataSet.SetAllKeeps | library/talipot-core/src/DataSet.cpp:231-246 | storing more read entries never loses a key |
| DataSet.HeaderOf | library/talipot-core/src/DataSet.cpp:186-201 | the header of a written entry reads back as the output type name and the key, leaving the data |
| DataSet.ReadRejectsUnquoted | library/talipot-core/src/DataSet.cpp:283-284 | an entry whose property name does not open with a quote makes the read fail with nothing read |
| DataSet.ReadOneEntry | library/talipot-core/src/DataSet.cpp:186-201 | one written entry of a readable value reads back as that entry, up to its closing parenthesis |
| DataSet.ReadRejectsUnclosed | library/talipot-core/src/DataSet.cpp:319-326 | an entry whose data is followed by anything but a closing parenthesis fails the read, the value read being kept |
| DataSet.ScanWritten | library/talipot-core/src/DataSet.cpp:204-210 | the written entries of a data set of readable values are defined and scan back as the same entries, in order, to the end of the text |
| DataSet.SetAllFresh | library/talipot-core/src/DataSet.cpp:231-246 | storing entries with distinct keys the set lacks appends them in order |
| DataSet.WriteReadRoundTrip | library/talipot-core/src/DataSet.cpp:204-333 | writing is defined, and reading what was written into an empty set gives back the same data set, when keys are distinct and every value is present and has a serializer that reads back its own text |
| DataSet.ScanNewline | library/talipot-core/src/DataSet.cpp:257-261 | the leading newline written before the entries is skipped on reading |
| DataSet.IsTalipotProperty | library/talipot-core/src/DataSet.cpp:34-53 | true exactly for a property class name or the pointer type of one |
| DataSet.EntryString | library/talipot-core/src/DataSet.cpp:342-366 | an entry holding a null pointer cannot be printed; otherwise it prints as nothing exactly when its value's type has neither a serializer nor a property type; otherwise as the quoted key and an equals sign, ending with a space |
| DataSet.ToString | library/talipot-core/src/DataSet.cpp:342-366 | undefined exactly when some entry holds a null pointer, as printing dereferences every value |
| DataSet.ToStringAppend | library/talipot-core/src/DataSet.cpp:342-366 | printing a concatenation prints the two parts one after the other |
| DataSet.ToStringHidden | library/talipot-core/src/DataSet.cpp:346-362 | a set whose entries cannot be shown prints as the empty string |
| NormalizeString.StripC3 | plugins/import/BibTeX/NormalizeString.cpp:23-130 | a second byte after the lead C3 that the table rewrites is in 0x88..0xBE and becomes an ASCII letter |
| NormalizeString.StripC4 | plugins/import/BibTeX/NormalizeString.cpp:131-255 | a second byte after the lead C4 that the table rewrites is in 0x80..0xBE and becomes an ASCII letter |
| NormalizeString.StripC5 | plugins/import/BibTeX/NormalizeString.cpp:256-333 | a second byte after the lead C5 that the table rewrites is in 0x81..0xBE and becomes an ASCII letter or the digit 0 |
| NormalizeString.Strip | plugins/import/BibTeX/NormalizeString.cpp:21-337 | only a lead C3, C4 or C5 followed by a continuation byte is rewritten, and always to an ASCII character |
| NormalizeString.Normalize | plugins/import/BibTeX/NormalizeString.cpp:21-337 | the key never grows, and a key of at most one byte comes back unchanged |
| NormalizeString.NormalizeKeeps | plugins/import/BibTeX/NormalizeString.cpp:22-24 | a key with no rewritable lead byte before its last byte comes back unchanged |
| NormalizeString.AsciiKept | plugins/import/BibTeX/NormalizeString.cpp:22-24 | ASCII text comes back unchanged |
| NormalizeString.NormalizeBytes | plugins/import/BibTeX/NormalizeString.cpp:21-337 | every byte of the result is ASCII or a byte of the input |
| NormalizeString.StripPair | plugins/import/BibTeX/NormalizeString.cpp:21-337 | a rewritten pair becomes its ASCII letter and the rest of the key is normalised on its own |
| NormalizeString.LowerCaseAccents | plugins/import/BibTeX/NormalizeString.cpp:90-105 | é becomes e and ñ becomes n |
| NormalizeString.DoubleAcuteOQuirk | plugins/import/BibTeX/NormalizeString.cpp:278-280 | Ő becomes the digit 0, as the table writes it |
| NormalizeString.CapitalLQuirk | plugins/import/BibTeX/NormalizeString.cpp:240-244 | Ĺ, Ļ and Ľ become G, as the table writes it |
| NormalizeString.FallThroughSwallows | plugins/import/BibTeX/NormalizeString.cpp:25-39 | À to Å fall through from the A replacement to the E replacement, which also swallows the following byte; at the end of the key they become E |
| NormalizeString.Rewrite | plugins/import/BibTeX/NormalizeString.cpp:22-24 | one turn of the loop keeps the bytes before the scan position and does not change what the whole scan produces |
| NormalizeString.RewriteKeeps | plugins/import/BibTeX/NormalizeString.cpp:22-24 | the loop's in-place result, plus the normalised rest, is the normalised key at every step |
| NormalizeString.NormalizeStringAsWritten | plugins/import/BibTeX/NormalizeString.cpp:21-337 | the in-place loop yields the normalised key for every non-empty key and reads past the end for the empty key, whose bound `size() - 1` wraps around |
| GlComposites.Find | library/talipot-ogl/src/GlComposite.cpp:223-230 | an entry is found exactly when the map holds the key, and the entity found is the one stored under it |
| GlComposites.Put | library/talipot-ogl/src/GlComposite.cpp:104-106 | the key maps to the new entity, every other key keeps its entity, and the keys stay in increasing order |
| GlComposites.Erase | library/talipot-ogl/src/GlComposite.cpp:171-172 | the key is gone, every other key keeps its entity, and the keys stay in increasing order |
| GlComposites.OrderedUnique | library/talipot-ogl/src/GlComposite.cpp:104-106 | two ordered maps that agree on every key are the same map, so the map is determined by its lookups |
| GlComposites.FindGlEntity | library/talipot-ogl/src/GlComposite.cpp:223-230 | the entity stored under the key, or null exactly when no entry has the key |
| GlComposites.FindKey | library/talipot-ogl/src/GlComposite.cpp:213-221 | for a stored entity, a key under which it is found; the empty string for an entity stored nowhere |
| GlComposites.AddGlEntity | library/talipot-ogl/src/GlComposite.cpp:100-141 | the key maps to the entity and other keys are untouched; a new key appends the entity to the list, the same entity changes nothing, and another entity under the key leaves the list before the new one is appended |
| GlComposites.DeleteGlEntity | library/talipot-ogl/src/GlComposite.cpp:143-179 | the key is gone, other keys are untouched, the entity leaves the list, and an absent key changes nothing |
| GlComposites.DeleteGlEntityByValue | library/talipot-ogl/src/GlComposite.cpp:181-211 | deleting by value deletes the key `findKey` gives, and nothing when the entity is stored nowhere |
| GlComposites.Reset | library/talipot-ogl/src/GlComposite.cpp:62-98 | after a reset nothing is found under any key and the list is empty |
| GlComposites.AddKeepsConsistent | library/talipot-ogl/src/GlComposite.cpp:100-141 | adding an entity that no other key stores keeps the map and the list in agreement, each entity listed once |
| GlComposites.DeleteKeepsConsistent | library/talipot-ogl/src/GlComposite.cpp:143-179 | deleting a key keeps the map and the list in agreement |
| GlComposites.AddThenDelete | library/talipot-ogl/src/GlComposite.cpp:100-179 | adding a new entity under a new key and deleting that key gives back the composite |
| GlComposites.FindKeyAfterAdd | library/talipot-ogl/src/GlComposite.cpp:100-141 | `findKey` of an entity just added gives back the key it was added under |
| ParallelCoords.GetSelectedProperties | plugins/view/ParallelCoordinatesView/src/ParallelCoordinatesGraphProxy.cpp:54-67 | the names returned and stored are the selected names whose property still exists, in their order, each as often as it was selected |
| ParallelCoords.GetSelectedPropertiesTwice | plugins/view/ParallelCoordinatesView/src/ParallelCoordinatesGraphProxy.cpp:54-67 | asking twice returns the same list and leaves the proxy as the first call left it |
| ParallelCoords.SetSelectedProperties | plugins/view/ParallelCoordinatesView/src/ParallelCoordinatesGraphProxy.cpp:69-71 | the selection becomes the list given; the highlighted set is untouched |
| ParallelCoords.RemovePropertyFromSelection | plugins/view/ParallelCoordinatesView/src/ParallelCoordinatesGraphProxy.cpp:73-83 | every occurrence of the name leaves the selection and the others stay in their order |
| ParallelCoords.AddOrRemoveEltToHighlight | plugins/view/ParallelCoordinatesView/src/ParallelCoordinatesGraphProxy.cpp:164-170 | the element's highlighting is flipped and no other element's changes |
| ParallelCoords.ToggleTwice | plugins/view/ParallelCoordinatesView/src/ParallelCoordinatesGraphProxy.cpp:164-170 | flipping an element twice restores the proxy |
| ParallelCoords.UnsetHighlightedElts | plugins/view/ParallelCoordinatesView/src/ParallelCoordinatesGraphProxy.cpp:172-174 | nothing is highlighted afterwards |
| ParallelCoords.HighlightedEltsSetMeans | plugins/view/ParallelCoordinatesView/src/ParallelCoordinatesGraphProxy.cpp:185-191 | `highlightedEltsSet` holds exactly when some element is highlighted |
| ParallelCoords.ResetHighlightedElts | plugins/view/ParallelCoordinatesView/src/ParallelCoordinatesGraphProxy.cpp:176-183 | since a set yields each element once in increasing order, flipping them in turn from an empty set highlights exactly the given elements |
| Observables.NewEvent | library/talipot-core/src/Observable.cpp:123-130 | building an event fails exactly for the delete type; any other event carries its sender and type |
| Observables.Hold | library/talipot-core/src/Observable.cpp:228-233 | a hold raises the hold counter by one and changes nothing else |
| Observables.Unhold | library/talipot-core/src/Observable.cpp:235-294 | an unhold without a pending hold changes nothing; otherwise the counter drops, and events are delivered exactly when the last hold is released with events queued, which empties the queue; the links are untouched |
| Observables.HoldThenUnhold | library/talipot-core/src/Observable.cpp:228-294 | an unhold undoes a hold, and events queued from outside any hold are delivered by it |
| Observables.FindLink | library/talipot-core/src/Observable.cpp:322-328 | the link found joins obs to me, or with the undirected lookup also me to obs; none is found exactly when no such link exists |
| Observables.AddOnlooker | library/talipot-core/src/Observable.cpp:311-341 | both objects become bound and the hold counter and event queue are untouched |
| Observables.AddObserver | library/talipot-core/src/Observable.cpp:343-347 | the observable's queued flag is cleared |
| Observables.RemoveOnlooker | library/talipot-core/src/Observable.cpp:526-556 | nothing changes when either object is unbound; otherwise links only lose bits or disappear |
| Observables.AddKeepsValid | library/talipot-core/src/Observable.cpp:311-341 | adding keeps every link between bound objects and carrying some bit |
| Observables.RemoveKeepsValid | library/talipot-core/src/Observable.cpp:526-556 | removing keeps every link between bound objects and carrying some bit |
| Observables.AddKeepsOneLinkPerPair | library/talipot-core/src/Observable.cpp:322-328 | the undirected lookup never creates a second link between two objects |
| Observables.AddMakesOnlooker | library/talipot-core/src/Observable.cpp:311-341 | with a directed lookup, obs onlooks me with the kind afterwards and no other onlooking changes |
| Observables.RemoveEndsOnlooker | library/talipot-core/src/Observable.cpp:526-556 | with a directed lookup, removing ends exactly that onlooking and keeps every other one |
| Observables.AddThenRemove | library/talipot-core/src/Observable.cpp:311-556 | adding a kind that was not there and removing it again restores the links |
| Observables.Onlookers | library/talipot-core/src/Observable.cpp:296-309 | the onlookers of a kind are exactly the other objects onlooking with that kind |
| Observables.Count | library/talipot-core/src/Observable.cpp:580-606 | zero without onlookers; otherwise, when me does not onlook itself, the number of onlookers of that kind |
| Observables.CountAfterAdd | library/talipot-core/src/Observable.cpp:580-606 | adding a new onlooker raises the count of that kind by one |
| Observables.Send | library/talipot-core/src/Observable.cpp:372-510 | sending never changes the links or the hold counter, never drops a queued event, and tells only listeners of the sender as listeners |
| Observables.SendUnheld | library/talipot-core/src/Observable.cpp:372-510 | without a hold, a modification reaches every observer and every listener at once and nothing is queued |
| Observables.SendHeld | library/talipot-core/src/Observable.cpp:372-510 | under a hold, listeners are told at once, observers are not, and a second send queues nothing more |
| Observables.HeldEventsDelivered | library/talipot-core/src/Observable.cpp:235-294 | an event queued for an observer is delivered when the last hold is released |
| Observables.MutualObserversAsWritten | library/talipot-core/src/Observable.cpp:322-340 | with the undirected lookup, b.addObserver(a) after a.addObserver(b) only re-sets the bit on the first link, so b has no observer |
| Observables.MutualObserversCorrected | library/talipot-core/src/Observable.cpp:311-347 | with a directed lookup, each of two objects observes the other and each has one observer |
| PairingHeaps.Empty | plugins/layout/FastOverlapRemoval/PairingHeap.cpp:31-35 | the new heap is valid and holds nothing |
| PairingHeaps.Link | plugins/layout/FastOverlapRemoval/PairingHeap.cpp:183-213 | linking two roots gives a root holding the items of both, topped by the smaller key, the first on equal keys |
| PairingHeaps.Insert | plugins/layout/FastOverlapRemoval/PairingHeap.cpp:57-67 | the heap stays valid, gains exactly the item, and its counter grows by one |
| PairingHeaps.IsEmpty | plugins/layout/FastOverlapRemoval/PairingHeap.cpp:104-106 | true exactly when the heap holds no item |
| PairingHeaps.IsFull | plugins/layout/FastOverlapRemoval/PairingHeap.cpp:112-114 | the heap is never full |
| PairingHeaps.Size | plugins/layout/FastOverlapRemoval/PairingHeap.cpp:68-70 | in a valid heap the size is the number of items held |
| PairingHeaps.FindMin | plugins/layout/FastOverlapRemoval/PairingHeap.cpp:75-80 | an underflow exactly when the heap is empty; otherwise an item held whose key no held item undercuts |
| PairingHeaps.Chain | plugins/layout/FastOverlapRemoval/PairingHeap.cpp:230-237 | the sibling chain cut into roots holds exactly the items of the chain |
| PairingHeaps.PairUp | plugins/layout/FastOverlapRemoval/PairingHeap.cpp:244-256 | the left-to-right pass halves the number of trees, rounding up |
| PairingHeaps.PairUpKeeps | plugins/layout/FastOverlapRemoval/PairingHeap.cpp:244-256 | the left-to-right pass keeps every item and yields roots |
| PairingHeaps.MergeRight | plugins/layout/FastOverlapRemoval/PairingHeap.cpp:258-262 | the right-to-left pass yields one root holding every item of the trees |
| PairingHeaps.CombineSiblings | plugins/layout/FastOverlapRemoval/PairingHeap.cpp:220-263 | combining a sibling chain gives one root holding exactly its items |
| PairingHeaps.DeleteMin | plugins/layout/FastOverlapRemoval/PairingHeap.cpp:85-98 | an underflow exactly when the heap is empty; otherwise the heap stays valid, loses exactly the minimum and its counter drops by one |
| PairingHeaps.InsertThenDeleteMin | plugins/layout/FastOverlapRemoval/PairingHeap.cpp:57-98 | deleting the minimum after one insertion into an empty heap gives the empty heap |
| PairingHeaps.CutOutSub | plugins/layout/FastOverlapRemoval/PairingHeap.cpp:161-168 | the node cut out is the node found, a heap-ordered root with its children |
| PairingHeaps.CutOutOrdered | plugins/layout/FastOverlapRemoval/PairingHeap.cpp:161-168 | what remains after the cut is still heap-ordered |
| PairingHeaps.CutOutElements | plugins/layout/FastOverlapRemoval/PairingHeap.cpp:161-168 | the cut loses no item: the remainder and the cut node together hold them all |
| PairingHeaps.DecreaseKey | plugins/layout/FastOverlapRemoval/PairingHeap.cpp:155-173 | the heap stays valid with the same counter; a larger new key changes nothing, otherwise exactly the one item's key changes |
| PairingHeaps.Rekey | plugins/layout/FastOverlapRemoval/PairingHeap.cpp:155-173 | the rekeyed tree is a root holding the same items with the one key replaced |
| PairingHeaps.MakeEmptyAsWritten | plugins/layout/FastOverlapRemoval/PairingHeap.cpp:119-122 | the heap empties but its counter is left as it was |
| PairingHeaps.MakeEmptyAsWrittenKeepsSize | plugins/layout/FastOverlapRemoval/PairingHeap.cpp:68-70 | after one insertion, emptying leaves a heap that reports itself empty while its size is still 1 |
| PairingHeaps.MakeEmpty | plugins/layout/FastOverlapRemoval/PairingHeap.cpp:119-122 | the emptied heap is valid, empty, and of size zero |
| ForceUtf8.IsLead2 | plugins/import/BibTeX/ForceUtf8String.cpp:35-38 | the signed comparisons `> '\301'` and `< '\340'` select exactly the bytes C2 to DF |
| ForceUtf8.IsLead3 | plugins/import/BibTeX/ForceUtf8String.cpp:43-46 | the signed comparisons `> '\337'` and `< '\360'` select exactly the bytes E0 to EF |
| ForceUtf8.IsCont | plugins/import/BibTeX/ForceUtf8String.cpp:38 | the test on the byte after a lead selects exactly the continuation bytes 80 to BF |
| ForceUtf8.Write | plugins/import/BibTeX/ForceUtf8String.cpp:29-31 | writing a buffer's second byte changes that buffer only, and neither the pending accent nor the pointer |
| ForceUtf8.Point | plugins/import/BibTeX/ForceUtf8String.cpp:24-26 | `seq(cX)[1] = v` writes the buffer and leaves `utf8seq` pointing at it |
| ForceUtf8.Legacy | plugins/import/BibTeX/ForceUtf8String.cpp:52-246 | a code-page 437 or Windows-1252 letter is a non-ASCII byte other than C3 and maps to a continuation byte after C3 |
| ForceUtf8.DotlessI | plugins/import/BibTeX/ForceUtf8String.cpp:256-291 | the dotless i under an accent becomes a two-byte sequence ending in a continuation byte |
| ForceUtf8.Put | plugins/import/BibTeX/ForceUtf8String.cpp:1328-1330 | a replacement writes the buffer's lead and the new second byte in place of the bytes consumed |
| ForceUtf8.Command | plugins/import/BibTeX/ForceUtf8String.cpp:298-336 | a backslash with no accent pending always consumes input |
| ForceUtf8.PendingBackslash | plugins/import/BibTeX/ForceUtf8String.cpp:256-297 | a backslash under a pending accent consumes input, and fails exactly when it is not followed by i and no buffer was pointed at in this call |
| ForceUtf8.Letter | plugins/import/BibTeX/ForceUtf8String.cpp:467-1326 | without a pending accent a plain byte is kept as it is |
| ForceUtf8.Step | plugins/import/BibTeX/ForceUtf8String.cpp:34-1331 | every turn of the loop that succeeds consumes input, so the scan ends |
| ForceUtf8.RunStep | plugins/import/BibTeX/ForceUtf8String.cpp:34-1331 | the scan's output is what one turn writes followed by the scan of what that turn leaves |
| ForceUtf8.CleanKept | plugins/import/BibTeX/ForceUtf8String.cpp:34-50 | well-formed two- and three-byte sequences and plain ASCII other than braces and backslash come back unchanged |
| ForceUtf8.BracesDeleted | plugins/import/BibTeX/ForceUtf8String.cpp:248-253 | ASCII text without a backslash loses its braces and nothing else |
| ForceUtf8.AsciiKept | plugins/import/BibTeX/ForceUtf8String.cpp:28-1333 | ASCII text without braces or backslashes comes back unchanged, as written and corrected |
| ForceUtf8.IsolatedE9 | plugins/import/BibTeX/ForceUtf8String.cpp:54-57 | a Windows-1252 é that does not start a valid sequence becomes C3 A9 and ends any pending accent |
| ForceUtf8.AcuteE | plugins/import/BibTeX/ForceUtf8String.cpp:300-318 | `\'` is deleted and recorded, and the following e becomes é |
| ForceUtf8.LigatureAe | plugins/import/BibTeX/ForceUtf8String.cpp:320-328 | `\ae` becomes æ |
| ForceUtf8.SlashedO | plugins/import/BibTeX/ForceUtf8String.cpp:298-336 | `\o` becomes ø, and œ when an e follows |
| ForceUtf8.SpaceWhilePending | plugins/import/BibTeX/ForceUtf8String.cpp:459-465 | a space under a pending accent is deleted and the accent stays pending |
| ForceUtf8.DotlessIAsWritten | plugins/import/BibTeX/ForceUtf8String.cpp:256-297 | as written, `\'{\i}e` gives íé: the accent stays pending after the dotless i |
| ForceUtf8.DotlessICorrected | plugins/import/BibTeX/ForceUtf8String.cpp:256-297 | with the accent ended after the dotless i, `\'{\i}e` gives íe |
| ForceUtf8.DotlessIEndsAccent | plugins/import/BibTeX/ForceUtf8String.cpp:256-297 | in the corrected scan, composing the dotless i writes two bytes and ends the accent |
| ForceUtf8.CaronCAsWritten | plugins/import/BibTeX/ForceUtf8String.cpp:926-949 | as written, `\vCe` gives Cě: the missing break keeps the C and leaves the caron pending |
| ForceUtf8.CaronCCorrected | plugins/import/BibTeX/ForceUtf8String.cpp:926-949 | with the break added, `\vCe` gives Če |
| ForceUtf8.ComposedLetter | plugins/import/BibTeX/ForceUtf8String.cpp:467-1331 | in the corrected scan, every letter of the table under its accent is replaced by its two-byte composition and ends the accent |
| ForceUtf8.StalePointer | plugins/import/BibTeX/ForceUtf8String.cpp:293-296 | a backslash under a pending accent before any letter was produced copies from a pointer this call never set, which the model reports as undefined |
| PluginDoc.SliceBound | doc/python/gen_plugins_doc.py:256 | a Python slice bound counts a negative index from the end and clamps into the string |
| PluginDoc.PySlice | doc/python/gen_plugins_doc.py:256 | Python's slice takes the characters between two in-range bounds and is empty when the bounds cross |
| PluginDoc.SubAtStart | doc/python/gen_plugins_doc.py:89-96 | an anchored substitution replaces the pattern only where the text starts with it, and otherwise leaves the text alone |
| PluginDoc.ReplaceHtmlTagsPlain | doc/python/gen_plugins_doc.py:87-105 | text with no `<` holds no tag and comes back unchanged |
| PluginDoc.ReplaceHtmlTagsInner | doc/python/gen_plugins_doc.py:97-98 | an opening tag inside plain text becomes the start marker with a space on each side |
| PluginDoc.ReplaceHtmlTagsLeading | doc/python/gen_plugins_doc.py:89-90 | an opening tag at the very start becomes the start marker with no space before it |
| PluginDoc.ReplaceHtmlTagsTail | doc/python/gen_plugins_doc.py:91-104 | once the leading tag is gone, the later substitutions find no tag and change nothing |
| PluginDoc.DropLeadingNewline | doc/python/gen_plugins_doc.py:109 | one leading newline is dropped and any other text is kept |
| PluginDoc.DropTrailingNewline | doc/python/gen_plugins_doc.py:110 | a final newline is dropped, and a doubled final newline loses both characters because `$` also matches before the last newline |
| PluginDoc.FormatSphinxDocPlain | doc/python/gen_plugins_doc.py:108-118 | text with no tag and no newline at either end is already valid reStructuredText and comes back unchanged |
| PluginDoc.PythonType | doc/python/gen_plugins_doc.py:121-155 | the class names map to their `tlp` class; Boolean, float, integer and string labels map to Python's own types in that order of tests; anything else is kept |
| PluginDoc.HelpOf | doc/python/gen_plugins_doc.py:250-256 | a help without the help paragraph yields an empty help column |
| PluginDoc.CellAfter | doc/python/gen_plugins_doc.py:258-263 | a help without the type tag yields an empty type column |
| PluginDoc.CellAfterTypeRow | doc/python/gen_plugins_doc.py:258-263 | the cell after the type tag of a generated help reads back the whole label when the label holds no `</td>` |
| PluginDoc.TypeRoundTrip | doc/python/gen_plugins_doc.py:257-263 | the type column reads back exactly the label the C++ help generator wrote, minus the ` (double precision)` suffix |
| PluginDoc.BuiltinTypeLabel | doc/python/gen_plugins_doc.py:121-155 | every built-in type label of the C++ side lands on Python's own type name |
| PluginDoc.SuffixDropped | doc/python/gen_plugins_doc.py:262-263 | the ` (double precision)` suffix is removed from a label and nothing else is |
| PluginDoc.DoubleLabel | doc/python/gen_plugins_doc.py:148-149 | the double-precision label is documented as a Python float |
| PluginDoc.DefaultAsWrittenDropsLast | doc/python/gen_plugins_doc.py:282-283 | the slice `[0:d.find(';')]` of a collection default without `;` is `[0:-1]` and drops the last character |
| PluginDoc.DefaultAsWrittenExample | doc/python/gen_plugins_doc.py:282-283 | the one-option collection `Linear` is documented with the default `Linea` |
| PluginDoc.DefaultText | doc/python/gen_plugins_doc.py:280-291 | the corrected default column is the first option of a collection, whole when there is one option, and a non-empty values list is appended after the values heading |
| PluginDoc.DefaultTextAgrees | doc/python/gen_plugins_doc.py:280-291 | where the collection default has several options, or the type is not a collection, the script's default column and the corrected one agree |
| PluginDoc.CorrectedRowDiffers | doc/python/gen_plugins_doc.py:246-300 | the script's row and the corrected row differ only in the default column, and exactly for a non-empty collection default without `;` |
| PluginDoc.KeptSnoc | doc/python/gen_plugins_doc.py:248-300 | one more declared parameter adds one row unless it is the skipped `result` property, and one input unless it is an output |
| PluginDoc.BuildTable | doc/python/gen_plugins_doc.py:246-300 | every parameter except a `result` property yields exactly one row, in declaration order, and the input counter counts the kept parameters that are not outputs |
| PluginDoc.BuildCorrectedTable | doc/python/gen_plugins_doc.py:246-300 | the same table with the corrected default column |
| PluginDoc.SnippetShape | doc/python/gen_plugins_doc.py:307-403 | the snippet fetches parameters with a graph except for import plugins, lists every row as an input exactly when the plugin has inputs besides a lone `result`, and ends with the closing remark |
| PluginDoc.SnippetPropertyCalls | doc/python/gen_plugins_doc.py:331-398 | a property algorithm is shown applied both to a named result property and to the default one |
| TlpExport.Escape | library/talipot-core/src/TLPExport.cpp:38-47 | a quote, a newline or a backslash is written as two characters and any other character as itself; no newline is ever written |
| TlpExport.Convert | library/talipot-core/src/TLPExport.cpp:35-51 | the written string holds no newline and is at most twice as long as the original |
| TlpExport.UnescapeConvert | library/talipot-core/src/TLPExport.cpp:35-51 | reading back an escaped string with the TLP string rule gives the original string |
| TlpExport.ConvertInjective | library/talipot-core/src/TLPExport.cpp:35-51 | two different strings are never written the same way |
| TlpExport.StepScanned | library/talipot-core/src/TLPExport.cpp:121-150 | each iteration of the id loop keeps every id seen accounted for by the printed items and the open run |
| TlpExport.StepCanonical | library/talipot-core/src/TLPExport.cpp:121-150 | each iteration keeps the printed list canonical: a run is printed as its first id and `..last` only when it has at least two ids |
| TlpExport.SaveIds | library/talipot-core/src/TLPExport.cpp:104-150 | the printed id list of a subgraph stands for exactly the ids of the subgraph, in order, and is canonical |
| TlpExport.RootNodes | library/talipot-core/src/TLPExport.cpp:196-211 | the root's node list is `(nodes)`, `(nodes 0)`, `(nodes 0 1)` or `(nodes 0..n-1)` by node count, canonical except for two nodes written singly |
| TlpExport.RootNodesExpand | library/talipot-core/src/TLPExport.cpp:196-211 | the root's node list names every node position from 0 to n-1 exactly once, in order |
| TlpExport.RootEdges | library/talipot-core/src/TLPExport.cpp:216-231 | edge i of the root is written with index i and the positions of its ends, so the node list read at those positions gives back its ends |
| TlpExport.SymbolicPath | library/talipot-core/src/TLPExport.cpp:287-318 | a font or texture value has the first occurrence of the bitmap directory replaced by the symbolic name; any other value is written as it is |
| TlpExport.SymbolicPathKeepsLater | library/talipot-core/src/TLPExport.cpp:292-318 | only the first occurrence of the bitmap directory is replaced: a later one is still there, shifted |
| TlpExport.ReindexAsWrittenStale | library/talipot-core/src/TLPExport.cpp:402-415 | as written, the vector loops reindex copies: a vector holding node 5, at position 0, is written with the stale id 5 while a single node 5 is written as 0 |
| TlpExport.Reindex | library/talipot-core/src/TLPExport.cpp:395-416 | the intended reindexing keeps the length of node and edge vectors |
| TlpExport.ReindexVectorAgrees | library/talipot-core/src/TLPExport.cpp:395-416 | with the intended reindexing a node or edge inside a vector gets the same position as the same node or edge on its own |
| TlpExport.ExportGraph | library/talipot-core/src/TLPExport.cpp:440-498 | the exported graph is written as a root and the hierarchy is restored; the header opens with the format version and the date and ends with the comments, the default ones unless given; an author line appears exactly when a non-empty author is given, and the name attribute is set exactly when a non-empty name is given |
| AbstractProperties.Fresh | library/talipot-core/include/talipot/cxx/AbstractProperty.cxx:20-31 | a new property reads its default value at every id |
| AbstractProperties.SetValue | library/talipot-core/include/talipot/cxx/AbstractProperty.cxx:100-108 | the element reads the new value and no other element or the default changes |
| AbstractProperties.SetEach | library/talipot-core/include/talipot/cxx/AbstractProperty.cxx:160-166 | setting each element of a graph in turn makes exactly those elements read the value |
| AbstractProperties.SetDefaultValue | library/talipot-core/include/talipot/cxx/AbstractProperty.cxx:120-158 | the default becomes the new value while every element of the graph reads what it read before; setting the current default changes nothing |
| AbstractProperties.DefaultReachesOutsiders | library/talipot-core/include/talipot/cxx/AbstractProperty.cxx:144-146 | an element outside the graph that holds no value reads the new default afterwards; in the vector state this needs the element outside the index range (see Left out) |
| AbstractProperties.DefaultChangeNonDefault | library/talipot-core/include/talipot/cxx/AbstractProperty.cxx:120-158 | after a default change a graph element is non-default exactly when it does not read the new default |
| AbstractProperties.SetAllValue | library/talipot-core/include/talipot/cxx/AbstractProperty.cxx:160-174 | for a descendant graph only its elements take the value and the default stays; otherwise the default and every element read the value |
| AbstractProperties.Erase | library/talipot-core/include/talipot/cxx/AbstractProperty.cxx:445-448 | the erased element reads the default again and nothing else changes |
| AbstractProperties.EraseClears | library/talipot-core/include/talipot/cxx/AbstractProperty.cxx:445-448 | an erased element is no longer reported as non-default |
| AbstractProperties.Compare | library/talipot-core/include/talipot/cxx/AbstractProperty.cxx:233-240 | `-1` exactly when the first value is less, `0` when neither is less and they are equal, `1` otherwise |
| AbstractProperties.CompareAntisymmetric | library/talipot-core/include/talipot/cxx/AbstractProperty.cxx:233-240 | for a strict total order, swapping the elements negates the comparison |
| AbstractProperties.NonDefaultValuated | library/talipot-core/include/talipot/cxx/AbstractProperty.cxx:248-264 | exactly the admitted elements whose value differs from the default: an unnamed property always checks graph membership, a named one only for a graph other than its own |
| AbstractProperties.Copy | library/talipot-core/include/talipot/cxx/AbstractProperty.cxx:559-581 | false and no change without a source property, or when only non-default values are copied and the source reads the default; otherwise the destination reads the source's value |
| AbstractProperties.CopyReads | library/talipot-core/include/talipot/cxx/AbstractProperty.cxx:559-581 | a successful copy makes the destination read the source element's value |
| AbstractProperties.Assign | library/talipot-core/include/talipot/cxx/AbstractProperty.cxx:404-443 | on the same graph the defaults and all values are taken over; on another graph each element of this graph that the other graph holds takes the other's value, and the rest are untouched |
| AbstractProperties.AssignEach | library/talipot-core/include/talipot/cxx/AbstractProperty.cxx:425-436 | the element-by-element assignment gives each shared element the other property's value |
| AbstractProperties.SetStringValue | library/talipot-core/include/talipot/cxx/AbstractProperty.cxx:481-493 | false and no change when the text does not parse; otherwise only the element takes the parsed value |
| AbstractProperties.SetDefaultStringValue | library/talipot-core/include/talipot/cxx/AbstractProperty.cxx:507-519 | false and no change when the text does not parse; otherwise the parsed value becomes the default and the graph's elements keep their values |
| AbstractProperties.SetAllStringValue | library/talipot-core/include/talipot/cxx/AbstractProperty.cxx:520-532 | false and no change when the text does not parse; otherwise every value is set as `setAllNodeValue` does |
| MinMaxProperties.Fold | library/talipot-core/include/talipot/cxx/MinMaxProperty.cxx:102-107 | the loop's pair bounds every element's value, widens the starting pair only, and each end is a starting end or some element's value |
| MinMaxProperties.ComputeMinMax | library/talipot-core/include/talipot/cxx/MinMaxProperty.cxx:95-126 | with no non-default value the pair collapses to the default; otherwise, when every value lies within the type's bounds, the pair is the least and greatest value of the graph's elements |
| MinMaxProperties.GetMinMax | library/talipot-core/include/talipot/cxx/MinMaxProperty.cxx:27-40 | a cached pair is returned as it is; a missing one is computed now and cached |
| MinMaxProperties.ComputedOnce | library/talipot-core/include/talipot/cxx/MinMaxProperty.cxx:27-40 | a second read returns the cached pair and changes nothing |
| MinMaxProperties.UpdateValue | library/talipot-core/include/talipot/cxx/MinMaxProperty.cxx:216-238 | the whole cache is cleared exactly when the value really changes and some cached pair lacks the new value or has the old one at an end; otherwise the cache is kept |
| MinMaxProperties.UpdateKeepsPair | library/talipot-core/include/talipot/cxx/MinMaxProperty.cxx:216-238 | a pair not cleared by a value change is still the right pair after the change |
| MinMaxProperties.UpdateKeepsSound | library/talipot-core/include/talipot/cxx/MinMaxProperty.cxx:216-238 | every cached pair is still what a fresh computation would give after a value change |
| MinMaxProperties.UpdateAllValues | library/talipot-core/include/talipot/cxx/MinMaxProperty.cxx:264-271 | every cached graph's pair becomes the new value at both ends, and no graph is added or dropped |
| MinMaxProperties.MinUnique | library/talipot-core/include/talipot/cxx/MinMaxProperty.cxx:95-126 | the least and the greatest value of a set of elements are unique |
| MinMaxProperties.DropIfEnd | library/talipot-core/include/talipot/cxx/MinMaxProperty.cxx:289-306 | a deleted element drops its graph's pair exactly when its value is at one of the pair's ends |
| MinMaxProperties.TreatEvent | library/talipot-core/include/talipot/cxx/MinMaxProperty.cxx:282-343 | adding a node clears the node cache, deleting one drops its graph's pair when the value is at an end; edges do the same on the edge cache; other events change nothing |
| MinMaxProperties.DeleteKeepsPair | library/talipot-core/include/talipot/cxx/MinMaxProperty.cxx:295-306 | a kept pair stays right once the element leaves the graph, since its value was strictly inside the pair |
| MinMaxProperties.DeleteKeepsSound | library/talipot-core/include/talipot/cxx/MinMaxProperty.cxx:289-306 | deleting a node keeps the node cache right for the graph without that node |
| MutableContainers.GetFlaggedAgrees | library/talipot-core/include/talipot/cxx/MutableContainer.cxx:534-592 | `get(i)`, `get(i, notDefault)` and `hasNonDefaultValue(i)` read the same value, and the flag is set exactly when that value is not the default one |
| MutableContainers.SetAll | library/talipot-core/include/talipot/cxx/MutableContainer.cxx:180-229 | afterwards every index reads the new value, nothing is counted and the container is a vector again |
| MutableContainers.SetDefault | library/talipot-core/include/talipot/cxx/MutableContainer.cxx:173-178 | stored values keep reading what they did, indices with no stored value read the new default, and the count is untouched |
| MutableContainers.FindAll | library/talipot-core/include/talipot/cxx/MutableContainer.cxx:232-254 | no iterator when asked for the indices equal to the default value; otherwise exactly the stored indices whose value matches (or, with `equal` false, differs) |
| MutableContainers.Matching | library/talipot-core/include/talipot/cxx/MutableContainer.cxx:27-70 | the vector iterator yields exactly the covered indices whose value matches |
| MutableContainers.MatchingKeys | library/talipot-core/include/talipot/cxx/MutableContainer.cxx:72-115 | the hash map iterator yields exactly the keys whose value matches |
| MutableContainers.PushBack | library/talipot-core/include/talipot/cxx/MutableContainer.cxx:285-288 | pushing default values at the back extends `maxIndex` without changing any value read or the count |
| MutableContainers.PushFront | library/talipot-core/include/talipot/cxx/MutableContainer.cxx:290-293 | pushing default values at the front lowers `minIndex` without changing any value read or the count |
| MutableContainers.Widen | library/talipot-core/include/talipot/cxx/MutableContainer.cxx:285-293 | after both loops the vector covers the index, and no value read or count has changed |
| MutableContainers.VectSet | library/talipot-core/include/talipot/cxx/MutableContainer.cxx:264-304 | the index reads the value and no other index changes; the count grows unless a non-default value is overwritten |
| MutableContainers.Put | library/talipot-core/include/talipot/cxx/MutableContainer.cxx:295-302 | the in-place write changes only that index and moves the count of non-default entries by what left and what came |
| MutableContainers.Collect | library/talipot-core/include/talipot/cxx/MutableContainer.cxx:607-614 | the pairs collected are the vector's non-default values, one per non-default entry, each inside the covered range |
| MutableContainers.CollectRead | library/talipot-core/include/talipot/cxx/MutableContainer.cxx:607-614 | looking an index up among the collected pairs gives exactly the vector's non-default value there |
| MutableContainers.Bounds | library/talipot-core/include/talipot/cxx/MutableContainer.cxx:603-617 | the recomputed bounds enclose every index kept and the upper one is attained; no pair gives the empty marker |
| MutableContainers.VectToHash | library/talipot-core/include/talipot/cxx/MutableContainer.cxx:599-621 | the hash map reads the same value at every index, holds no default value, and counts the vector's non-default entries |
| MutableContainers.SetEach | library/talipot-core/include/talipot/cxx/MutableContainer.cxx:631-635 | writing the map's pairs one by one keeps the vector well shaped |
| MutableContainers.SetEachReads | library/talipot-core/include/talipot/cxx/MutableContainer.cxx:631-635 | every index written reads its pair's value, every other index is untouched |
| MutableContainers.SetEachCounts | library/talipot-core/include/talipot/cxx/MutableContainer.cxx:631-635 | each pair written is counted once, so a correct count stays correct |
| MutableContainers.HashToVect | library/talipot-core/include/talipot/cxx/MutableContainer.cxx:623-639 | the vector reads the same value at every index as the map did, and a correct count stays correct |
| MutableContainers.Compress | library/talipot-core/include/talipot/cxx/MutableContainer.cxx:641-672 | no value read changes; nothing happens on an empty container or a span under ten; a vector becomes a hash map only when sparse below the ratio, and a map a vector only when denser than one and a half times it |
| MutableContainers.Set | library/talipot-core/include/talipot/cxx/MutableContainer.cxx:306-384 | the index reads the value and nothing else changes; the count follows the values except that a forced removal of a value already at the default decrements it, which leaves it wrong |
| MutableContainers.Clear | library/talipot-core/include/talipot/cxx/MutableContainer.cxx:317-351 | removing a value makes the index read the default, and the count drops by one for a real removal (and by one more for a forced one) |
| MutableContainers.EraseThenSetDefault | library/talipot-core/include/talipot/cxx/MutableContainer.cxx:319-331 | an index set to the default and then given a new default reads the new default, except in the vector state inside the index range, where it keeps reading the old default its slot holds |
| MutableContainers.Assign | library/talipot-core/include/talipot/cxx/MutableContainer.cxx:352-383 | storing a non-default value changes only that index and keeps a correct count correct |
| MutableContainers.AddAsWritten | library/talipot-core/include/talipot/cxx/MutableContainer.cxx:386-447 | the value read at the index grows by the amount and nothing else changes |
| MutableContainers.AddToHash | library/talipot-core/include/talipot/cxx/MutableContainer.cxx:417-434 | in a hash map a sum that reaches the default is dropped, and the count stays correct |
| MutableContainers.AddAsWrittenCountsZero | library/talipot-core/include/talipot/cxx/MutableContainer.cxx:389-395 | adding zero to an empty container counts the default value it stores |
| MutableContainers.AddAsWrittenKeepsCount | library/talipot-core/include/talipot/cxx/MutableContainer.cxx:399-414 | a vector sum that returns to the default value keeps being counted |
| MutableContainers.Add | library/talipot-core/include/talipot/cxx/MutableContainer.cxx:386-447 | the index reads the sum, nothing else changes, and the count stays correct in every branch |
| MutableContainers.InvertBooleanValue | library/talipot-core/include/talipot/cxx/MutableContainer.cxx:482-526 | the index flips, nothing else changes, and the count moves by one towards the new value |
| MutableContainers.HashInsert | library/talipot-core/include/talipot/cxx/MutableContainer.cxx:502-512 | a flip of an index absent from the hash map stores the negated default and leaves the bounds as they are |
| MutableContainers.Flip | library/talipot-core/include/talipot/cxx/MutableContainer.cxx:489-498 | the in-range vector flip changes only that index and keeps a correct count correct |
| MutableContainers.CountListsNonDefault | library/talipot-core/include/talipot/cxx/MutableContainer.cxx:594-597 | in a correct container `numberOfNonDefaultValues` equals the number of indices `findAll(default, false)` yields |
| IdContainers.ElementsIndexed | library/talipot-core/include/talipot/IdManager.h:191-195 | an id is an element exactly when it is listed in the container |
| IdContainers.GetPos | library/talipot-core/include/talipot/IdManager.h:202-206 | the position of an element is where the container lists it |
| IdContainers.Add | library/talipot-core/include/talipot/IdManager.h:208-223 | the oldest freed id is reused, or the next new one is made; it was not an element before, is one after, sits at the end, and no other membership changes |
| IdContainers.Free | library/talipot-core/include/talipot/IdManager.h:250-275 | the element leaves, the last element moves into its place, the id joins the back of the free queue, and freeing the last element forgets every freed id |
| IdContainers.FreeThenAdd | library/talipot-core/include/talipot/IdManager.h:209-263 | with no earlier freed id, freeing an element and adding one gives that element's id back |
| IdContainers.FreeLastThenAdd | library/talipot-core/include/talipot/IdManager.h:209-274 | freeing the only element forgets the freed ids, so the next add starts again at 0 |
| IdContainers.AddThenFree | library/talipot-core/include/talipot/IdManager.h:209-275 | adding an element then freeing it leaves the same elements |
| IdContainers.Swap | library/talipot-core/include/talipot/IdManager.h:277-283 | the two elements trade positions and every other element, and the free queue, stay |
| IdContainers.AddNbAsWritten | library/talipot-core/include/talipot/IdManager.h:225-248 | the elements appended are the freed ids first, then new ids counted from the size reached so far |
| IdContainers.AddNbAsWrittenLosesElement | library/talipot-core/include/talipot/IdManager.h:240 | a container whose position table is longer than the new size loses an element when `pos` is shrunk |
| IdContainers.AddNb | library/talipot-core/include/talipot/IdManager.h:225-248 | the ids added are the freed ids first, oldest first, then new ones; each is new, sits where it was appended, and the elements are the old ones plus the added ones |
| IdContainers.AddNbReusesOldest | library/talipot-core/include/talipot/IdManager.h:229-238 | when enough ids are free, the ones added are the oldest freed ones and the rest stay queued |
| IdContainers.AddNbThenNew | library/talipot-core/include/talipot/IdManager.h:229-238 | when the free ids run out, every one is reused and the rest are consecutive new ids |
| IdContainers.SubElements | library/talipot-core/include/talipot/IdManager.h:308-314 | in a subgraph container an id is an element exactly when listed, and none is listed twice |
| IdContainers.SubAdd | library/talipot-core/include/talipot/IdManager.h:316-321 | the element is appended at the end and no other position changes |
| IdContainers.SubRemove | library/talipot-core/include/talipot/IdManager.h:332-348 | the element leaves, the last element takes its position, and the other elements keep theirs |
| IdContainers.SubAddThenRemove | library/talipot-core/include/talipot/IdManager.h:316-348 | adding an element and removing it gives back the same list |
| IdManager.NoneUsed | library/talipot-core/src/IdManager.cpp:63-67 | no id is in use exactly when the manager is back to its starting state |
| IdManager.IsFree | library/talipot-core/src/IdManager.cpp:20-34 | an id is free exactly when it is not in use |
| IdManager.Get | library/talipot-core/include/talipot/IdManager.h:108-114 | the id handed out was free and is in use after; below `firstId` it is `firstId - 1`, otherwise the least freed id, otherwise `nextId` |
| IdManager.Advance | library/talipot-core/src/IdManager.cpp:53-61 | the loop moves `firstId` past every freed id that follows it, removing those from the free set |
| IdManager.Free | library/talipot-core/src/IdManager.cpp:36-71 | the id is no longer in use and nothing else changes; freeing an id not in use changes nothing, and freeing the last one in use resets the manager |
| IdManager.GetFreeId | library/talipot-core/src/IdManager.cpp:83-100 | a free id above `firstId` becomes used and no other id changes |
| IdManager.FreeUpTo | library/talipot-core/src/IdManager.cpp:89-92 | the ids skipped between `nextId` and the id requested become free |
| IdManager.Ids | library/talipot-core/include/talipot/IdManager.h:41-86 | the iterator lists exactly the ids in use, ascending |
| GraphStorages.EmptyValid | library/talipot-core/src/GraphStorage.cpp:20-25 | the cleared storage satisfies the storage invariant |
| GraphStorages.RemoveAll | library/talipot-core/src/GraphStorage.cpp:517-519 | the erase–remove idiom drops every copy of the edge and keeps every other entry with its multiplicity |
| GraphStorages.AddNode | library/talipot-core/src/GraphStorage.cpp:333-354 | the node returned is new, is the only node added, starts with no edges and no out-edge, and nothing else changes |
| GraphStorages.AddEdge | library/talipot-core/src/GraphStorage.cpp:440-454 | the edge returned is new with the given ends, the source gains one out-edge, each end lists the edge once more (a loop's node twice), and no other node changes |
| GraphStorages.Pull | library/talipot-core/src/GraphStorage.cpp:526-538 | taking out an edge removes it from each end other than the kept one and lowers its source's out-degree |
| GraphStorages.Detach | library/talipot-core/src/GraphStorage.cpp:526-538 | the edge id is freed and no other edge or node changes membership |
| GraphStorages.DelEdge | library/talipot-core/src/GraphStorage.cpp:485-489 | the edge is gone and appears in no incidence list, every other edge keeps its multiplicity in every list, and the invariant holds |
| GraphStorages.AddEdgeThenDelEdge | library/talipot-core/src/GraphStorage.cpp:440-489 | adding an edge and deleting it restores every node's incidence list and out-degree |
| GraphStorages.Reverse | library/talipot-core/src/GraphStorage.cpp:283-289 | the ends swap, the old source loses an out-edge and the old target gains one, and no incidence list changes |
| GraphStorages.ReverseTwice | library/talipot-core/src/GraphStorage.cpp:283-289 | reversing an edge twice gives the storage back |
| GraphStorages.RemoveOne | library/talipot-core/src/GraphStorage.cpp:263 | the intended removal takes exactly one copy of the edge out of a list |
| GraphStorages.MoveEnd | library/talipot-core/src/GraphStorage.cpp:255-276 | moving one end of an edge to another node keeps the storage invariant and records the new end |
| GraphStorages.SetEnds | library/talipot-core/src/GraphStorage.cpp:243-278 | with removals of one copy: the given ends are recorded, out-degrees follow the source, and the storage invariant holds |
| GraphStorages.SetEndsAsWritten | library/talipot-core/src/GraphStorage.cpp:243-278 | as written, the given ends are recorded and out-degrees follow the source |
| GraphStorages.SetEndsAsWrittenAgrees | library/talipot-core/src/GraphStorage.cpp:243-278 | the written and the intended `setEnds` record the same ends and out-degrees; only the incidence lists can differ |
| GraphStorages.SetEndsAsWrittenSwapBreaks | library/talipot-core/src/GraphStorage.cpp:268-276 | swapping the ends of a non-loop edge leaves the old target listing the edge twice, which breaks the invariant |
| GraphStorages.SetEdgeOrder | library/talipot-core/src/GraphStorage.cpp:294-296 | only the node's incidence list is replaced, by the given one |
| GraphStorages.SetEdgeOrderValid | library/talipot-core/src/GraphStorage.cpp:294-296 | the new order keeps the storage valid exactly when it is a permutation of the old list |
| GraphStorages.ScanPositions | library/talipot-core/src/GraphStorage.cpp:309-323 | each position found is the last occurrence of its edge up to the first index by which both edges have been seen |
| GraphStorages.SwapEdgeOrder | library/talipot-core/src/GraphStorage.cpp:303-328 | nothing for equal edges; otherwise the two positions found exchange their edges, the list stays a permutation, and no other node changes |
| GraphStorages.DelAllEdgesAsWritten | library/talipot-core/src/GraphStorage.cpp:494-502 | edge ids, ends and every incidence list are cleared while the out-degrees are kept |
| GraphStorages.DelAllEdgesAsWrittenKeepsDegree | library/talipot-core/src/GraphStorage.cpp:494-502 | once any edge exists, deleting all edges as written leaves a stale out-degree |
| GraphStorages.DelAllEdges | library/talipot-core/src/GraphStorage.cpp:494-502 | every list is emptied, every out-degree reset, and a valid storage stays valid |
| GraphStorages.DelAllNodes | library/talipot-core/src/GraphStorage.cpp:507-509 | the storage is empty and valid |
| GraphStorages.GetIdsMemento | library/talipot-core/src/GraphStorage.cpp:51-56 | the memento holds copies of both id containers |
| GraphStorages.RestoreIdsMemento | library/talipot-core/src/GraphStorage.cpp:61-64 | both id containers are put back and the node and edge data are untouched |
| GraphStorages.MementoRoundTrip | library/talipot-core/src/GraphStorage.cpp:51-64 | restoring a memento taken from the same storage changes nothing |
| GraphStorages.EdgesBetween | library/talipot-core/src/GraphStorage.cpp:204-215 | the result is sorted without duplicates and holds exactly the listed edges that join the two nodes (either way when undirected) and lie in the subgraph |
| GraphStorages.GetEdges | library/talipot-core/src/GraphStorage.cpp:199-218 | the edges returned are sorted and without duplicates |
| GraphStorages.ListedEdges | library/talipot-core/src/GraphStorage.cpp:440-454 | in a valid storage a node's incidence list holds exactly the existing edges it is an end of |
| GraphStorages.GetEdgesExactly | library/talipot-core/src/GraphStorage.cpp:199-218 | an edge is returned exactly when it exists, joins the two nodes as asked, and is in the subgraph |
| GraphStorages.IOEdges | library/talipot-core/src/GraphStorage.cpp:87-125 | the iterator yields each matching non-loop edge as often as it is listed, a loop once, and nothing else |
| GraphStorages.OutEdges | library/talipot-core/src/GraphStorage.cpp:220-222 | exactly the out-edges of the node are yielded |
| GraphStorages.InEdges | library/talipot-core/src/GraphStorage.cpp:224-226 | exactly the existing edges whose target is the node are yielded |
| GraphStorages.OutEdgesCount | library/talipot-core/src/GraphStorage.cpp:220-222 | the out-edge iterator yields as many edges as the node's out-degree |
| GraphStorages.OutNodes | library/talipot-core/src/GraphStorage.cpp:175-183 | one node per out-edge, its target |
| GraphStorages.InNodes | library/talipot-core/src/GraphStorage.cpp:184-187 | one node per in-edge, its source |
| GraphStorages.InOutNodes | library/talipot-core/src/GraphStorage.cpp:188-191 | one node per incidence entry, the other end of that edge |
| GraphStorages.Split | library/talipot-core/src/GraphStorage.cpp:402-413 | the loop pass gets exactly the loops of the list and the first pass the rest, with their multiplicities |
| GraphStorages.DetachEach | library/talipot-core/src/GraphStorage.cpp:416-418 | detaching each listed edge keeps the shape and the nodes when no id is freed twice |
| GraphStorages.DetachEachTwice | library/talipot-core/src/GraphStorage.cpp:416-418 | an edge listed twice, or one no longer in use, makes the loop free an id twice |
| GraphStorages.DetachEachOnce | library/talipot-core/src/GraphStorage.cpp:402-418 | every listed edge is detached and exactly the other edges remain |
| GraphStorages.RemoveFromNodes | library/talipot-core/src/GraphStorage.cpp:380-391 | only the node leaves, its data is emptied, and the data vector is dropped with the last node |
| GraphStorages.RemoveFromNodesValid | library/talipot-core/src/GraphStorage.cpp:380-391 | once no edge touches the node, removing it leaves a valid storage |
| GraphStorages.DelNodeAsWritten | library/talipot-core/src/GraphStorage.cpp:396-421 | a successful deletion removes the node |
| GraphStorages.DelNodeAsWrittenLoop | library/talipot-core/src/GraphStorage.cpp:402-418 | a node carrying a loop has that loop freed twice |
| GraphStorages.DelNode | library/talipot-core/src/GraphStorage.cpp:396-421 | the node and exactly the edges touching it go, everything else stays, and the storage stays valid |
| VectorGraphs.EmptyValid | library/talipot-core/src/VectorGraph.cpp:560-622 | the empty graph passes every check of the integrity test |
| VectorGraphs.InDegNatural | library/talipot-core/src/VectorGraph.cpp:597-601 | in a valid graph a node's degree is its in-degree plus its out-degree, both natural |
| VectorGraphs.AddNode | library/talipot-core/src/VectorGraph.cpp:300-311 | the node returned is new and the only one added, starts with no slot and out-degree 0, and the graph stays valid |
| VectorGraphs.DropSlot | library/talipot-core/src/VectorGraph.cpp:655-672 | the last slot moves into the freed place, the edge it holds records its new position, and every other node is untouched |
| VectorGraphs.PartialDel | library/talipot-core/src/VectorGraph.cpp:674-705 | the edge's slots at the node are gone (two for a loop), the adjacency shrinks by that many, outgoing slots drop only at the source, and every edge's ends stay |
| VectorGraphs.DropLoop | library/talipot-core/src/VectorGraph.cpp:683-688 | the two slots of a loop go, the larger position first |
| VectorGraphs.DropEnd | library/talipot-core/src/VectorGraph.cpp:689-699 | the one slot of a non-loop edge at the node goes |
| VectorGraphs.RemoveEdge | library/talipot-core/src/VectorGraph.cpp:645-653 | the id is freed and every other edge keeps its data |
| VectorGraphs.Unplug | library/talipot-core/src/VectorGraph.cpp:403-408 | the edge leaves the adjacency of both ends, and each node loses exactly its ends of the edge |
| VectorGraphs.DelEdge | library/talipot-core/src/VectorGraph.cpp:400-413 | the edge alone is gone, each node's degree loses that edge's ends, the source's out-degree drops by one, and the graph stays valid |
| VectorGraphs.Plug | library/talipot-core/src/VectorGraph.cpp:343-362 | each end appends a slot for the edge and the edge records those positions, the target one right after the source one for a loop |
| VectorGraphs.AddEdge | library/talipot-core/src/VectorGraph.cpp:364-378 | the edge returned is new with the given ends, the only edge added, and the graph stays valid |
| VectorGraphs.AddEdgeAppends | library/talipot-core/src/VectorGraph.cpp:343-362 | adding an edge appends one slot at each end (two at a loop's node), records their positions, and leaves every other edge alone |
| VectorGraphs.NewEdge | library/talipot-core/src/VectorGraph.cpp:364-372 | the id half gives a new edge id and changes no node and no earlier edge |
| VectorGraphs.PlugThenUnplug | library/talipot-core/src/VectorGraph.cpp:343-413 | taking the slots of a just-plugged edge out gives every node its adjacency back |
| VectorGraphs.AddEdgeThenDelEdge | library/talipot-core/src/VectorGraph.cpp:364-413 | deleting the edge just added gives every node its adjacency and out-degree back, and the same edges |
| VectorGraphs.AddEdgeThenDelEdgeSameEdges | library/talipot-core/src/VectorGraph.cpp:364-413 | the edges left after deleting the edge just added are the edges there were |
| VectorGraphs.Reverse | library/talipot-core/src/VectorGraph.cpp:474-484 | the ends and their positions swap, one out-degree moves from source to target, degrees stay, and the graph stays valid |
| VectorGraphs.ReverseTwice | library/talipot-core/src/VectorGraph.cpp:474-484 | reversing twice gives the graph back |
| VectorGraphs.SetEnds | library/talipot-core/src/VectorGraph.cpp:486-514 | the edge gets the new ends and the graph stays valid |
| VectorGraphs.SetEndsKeeps | library/talipot-core/src/VectorGraph.cpp:486-514 | every other edge keeps its ends; a node's degree loses the old ends at it and gains the new ones, and the out-degree follows the source |
| VectorGraphs.SetEndsBack | library/talipot-core/src/VectorGraph.cpp:486-514 | setting the old ends back restores every edge's ends and every node's degrees |
| VectorGraphs.SetEndsCompose | library/talipot-core/src/VectorGraph.cpp:486-514 | two moves of an edge, the second back to the first one's old ends, leave every end and degree as they were |
| VectorGraphDegrees.DegreeSum | library/talipot-core/src/VectorGraph.cpp:600-621 | in a valid graph the node degrees add up to twice the number of edges |
| VectorGraphOps.Opposite | library/talipot-core/src/VectorGraph.cpp:460-472 | the node and the result are exactly the two ends of the edge |
| VectorGraphOps.OppositeSlot | library/talipot-core/src/VectorGraph.cpp:584-585 | the other end a slot records is the edge's opposite end at that node |
| VectorGraphOps.OppositeTwice | library/talipot-core/src/VectorGraph.cpp:460-472 | the opposite of the opposite is the node one started from |
| VectorGraphOps.SwapEdgeOrder | library/talipot-core/src/VectorGraph.cpp:195-238 | nothing for equal edges; otherwise the two edges trade positions at the node, its slots are permuted, and no other node or end changes |
| VectorGraphOps.SwapEdgeOrderTrades | library/talipot-core/src/VectorGraph.cpp:195-238 | the two edges trade places in the order of the node's adjacency |
| VectorGraphOps.SwapEdgeOrderTwice | library/talipot-core/src/VectorGraph.cpp:195-238 | swapping twice gives the graph back |
| VectorGraphOps.OrderFrom | library/talipot-core/src/VectorGraph.cpp:188-190 | each turn of the loop keeps the graph valid, permutes only the node's slots and changes no end |
| VectorGraphOps.SetEdgeOrder | library/talipot-core/src/VectorGraph.cpp:186-193 | the node's slots are permuted and nothing else changes; fewer than two entries change nothing |
| VectorGraphOps.SetEdgeOrderAsWritten | library/talipot-core/src/VectorGraph.cpp:188 | the loop bound underflows for an empty order, and otherwise behaves as intended |
| VectorGraphOps.SetEdgeOrderAsWrittenEmpty | library/talipot-core/src/VectorGraph.cpp:188 | for an empty order the written loop reads past the end where the intended one does nothing |
| VectorGraphOps.SetEdgeOrderArranges | library/talipot-core/src/VectorGraph.cpp:186-193 | when the order lists every edge at a loop-free node once, the adjacency ends up in that order |
| VectorGraphOps.ExistEdge | library/talipot-core/src/VectorGraph.cpp:149-184 | an edge found joins the two nodes as asked (source to target when directed, either way otherwise); none found means no existing edge does |
| VectorGraphOps.InOutSlots | library/talipot-core/src/VectorGraph.cpp:29-118 | the iterators yield the slots of the chosen direction in order and stop after the count they are given |
| VectorGraphOps.SensSlots | library/talipot-core/src/VectorGraph.cpp:613-618 | a node's slots in one direction are exactly those of the edges with that end at the node |
| VectorGraphOps.Elem | library/talipot-core/src/VectorGraph.cpp:280-298 | the count an iterator is given is the number of slots in its direction |
| VectorGraphOps.OutInEdges | library/talipot-core/src/VectorGraph.cpp:280-286 | exactly the edges leaving (or entering) the node, as many as its out-degree (or in-degree) |
| VectorGraphOps.OutInNodes | library/talipot-core/src/VectorGraph.cpp:292-298 | exactly the targets of the edges leaving the node (or the sources of those entering it), one per edge |
| VectorGraphOps.DelAllEdges | library/talipot-core/src/VectorGraph.cpp:444-451 | no edge remains, every node stays with degree and out-degree 0, and the graph stays valid |
| VectorGraphOps.DelAllEdgesTwice | library/talipot-core/src/VectorGraph.cpp:444-451 | deleting all edges twice is deleting them once |
| VectorGraphOps.DelAllNodes | library/talipot-core/src/VectorGraph.cpp:453-458 | no node and no edge remain and the graph is valid |
| VectorGraphOps.DelAllNodesRestarts | library/talipot-core/src/VectorGraph.cpp:453-458 | after deleting all nodes the next node added is id 0, alone |
| Graphs.Incident | library/talipot-core/include/talipot/GraphView.h:25-53 | in a valid view an edge is in a node's incidence list exactly when it is an edge of the view with an end at that node |
| Graphs.EraseFirstRemovesOne | library/talipot-core/include/talipot/GraphView.h:50-52 | erasing from the incidence list takes out exactly one copy of the edge |
| Graphs.OutEdgeRemove | library/talipot-core/include/talipot/GraphView.h:39-42 | removing an out-edge lowers the unsigned out-degree by one, wrapping to `0xFFFF_FFFF` below zero |
| Graphs.SwapAt | library/talipot-core/include/talipot/GraphView.h:46 | two entries trade places and nothing else moves |
| Graphs.SwapEdgeOrder | library/talipot-core/include/talipot/GraphView.h:43-47 | the first occurrences of the two edges trade places; the list stays a permutation, the out-degree stays, and equal edges change nothing |
| Graphs.DegreeSplit | library/talipot-core/include/talipot/GraphView.h:112-124 | in a valid view the degree is the number of out-edges plus the number of in-edges; `outdeg` is the first and `indeg` the second read as an unsigned count |
| Graphs.Opposite | library/talipot-core/include/talipot/GraphView.h:147-151 | the result is the target when the node is the source and the source when it is the target |
| Graphs.DirEdges | library/talipot-core/src/GraphView.cpp:393-413 | the filter passes exactly the listed edges with the right end at the node that are not a loop already seen |
| Graphs.DirEdgesDistinct | library/talipot-core/src/GraphView.cpp:393-413 | the filter yields no edge twice when each non-loop edge it passes is listed once |
| Graphs.OutEdges | library/talipot-core/src/GraphView.cpp:420-423 | exactly the out-edges of the node, each once |
| Graphs.InEdges | library/talipot-core/src/GraphView.cpp:415-418 | exactly the in-edges of the node, each once |
| Graphs.InOutEdges | library/talipot-core/src/GraphView.cpp:425-428 | exactly the view's edges with an end at the node |
| Graphs.DegreesCountIterated | library/talipot-core/include/talipot/GraphView.h:116-124 | `outdeg` is the number of edges `getOutEdges` yields, and `indeg` that of `getInEdges` |
| GraphViews.RestoreNode | library/talipot-core/src/GraphView.cpp:143-147 | the node is appended with an empty incidence list and out-degree 0, and nothing else changes |
| GraphViews.RestoreNodeValid | library/talipot-core/src/GraphView.cpp:143-147 | restoring a node not in the view keeps the view valid |
| GraphViews.AddEdgeInternal | library/talipot-core/src/GraphView.cpp:200-207 | the edge is appended to the view's edges and no node or end changes |
| GraphViews.AddEdgeData | library/talipot-core/src/GraphView.cpp:200-207 | each node's list holds the edge once more per end it has there, and the source gains one out-edge |
| GraphViews.AddEdgeValid | library/talipot-core/src/GraphView.cpp:200-207 | adding an edge whose ends are in the view keeps the view valid |
| GraphViews.Removable | library/talipot-core/src/GraphView.cpp:338-347 | every edge of a valid view can be removed, and its source has an out-edge to lose |
| GraphViews.RemoveEdge | library/talipot-core/src/GraphView.cpp:338-347 | the edge leaves the view's edges and no node or end changes |
| GraphViews.RemoveEdgeData | library/talipot-core/src/GraphView.cpp:338-347 | each node's list holds the edge once less per end it has there, and the source loses one out-edge |
| GraphViews.RemoveEdgeValid | library/talipot-core/src/GraphView.cpp:338-347 | removing an edge keeps the view valid |
| GraphViews.AddThenRemoveEdge | library/talipot-core/src/GraphView.cpp:200-347 | removing an edge just added gives the view back |
| GraphViews.AddedRemovable | library/talipot-core/src/GraphView.cpp:200-207 | an edge just added can be removed |
| GraphViews.ReverseInternal | library/talipot-core/src/GraphView.cpp:58-74 | the view reads the swapped ends; a view without the edge is otherwise untouched |
| GraphViews.ReverseData | library/talipot-core/src/GraphView.cpp:58-65 | reversal keeps every list's contents and moves one out-edge from the old source to the old target |
| GraphViews.ReverseValid | library/talipot-core/src/GraphView.cpp:58-74 | reversal keeps the view valid |
| GraphViews.ReverseMovesOut | library/talipot-core/src/GraphView.cpp:58-65 | after reversal the edge leaves its old target and no longer its old source, and the out-degrees follow |
| GraphViews.SetEdgeOrder | library/talipot-core/include/talipot/GraphView.h:81-90 | only the node's incidence list is replaced, by the given order |
| GraphViews.SetEdgeOrderValid | library/talipot-core/include/talipot/GraphView.h:81-90 | an order listing the same edges keeps the view valid |
| GraphViews.ExistEdge | library/talipot-core/src/GraphView.cpp:49-56 | no edge when an end is not in the view or nothing joins them; otherwise the least edge joining them as asked |
| GraphViews.LeastJoining | library/talipot-core/src/GraphView.cpp:54-55 | the edge picked joins the two nodes as asked and is the least such edge of the list |
| GraphViews.AddEdges | library/talipot-core/src/GraphView.cpp:213-227 | the edges are appended in order and no node or end changes |
| GraphViews.RestoreNodes | library/talipot-core/src/GraphView.cpp:149-161 | the nodes are appended in order and become exactly the new nodes of the view |
| GraphViews.Construct | library/talipot-core/src/GraphView.cpp:24-42 | without a filter the subgraph is empty; with one it holds the selected nodes and edges of the supergraph in the supergraph's order, and it is valid |
| GraphViews.FilteredValid | library/talipot-core/src/GraphView.cpp:33-41 | restoring the selected nodes and then adding the selected edges gives a valid view |
| GraphViews.RemoveNodeValid | library/talipot-core/src/GraphView.cpp:286-292 | removing a node no edge touches keeps the view valid and removes only that node |
| GraphViews.RemoveEdges | library/talipot-core/src/GraphView.cpp:349-355 | exactly the listed edges leave, the rest stay, and the view stays valid |
| GraphViews.DelEdgeTree | library/talipot-core/src/GraphView.cpp:357-371 | the edge leaves every view of the subgraph tree that held it and the tree stays valid |
| GraphViews.AbsentBelow | library/talipot-core/src/GraphView.cpp:363-367 | a view without the edge has no subgraph holding it, so the deletion does not touch it |
| GraphViews.ReverseTreeValid | library/talipot-core/src/GraphView.cpp:58-74 | reversal through the tree keeps it valid and reverses the edge in exactly the views holding it |
| GraphViews.DelNodeTree | library/talipot-core/src/GraphView.cpp:308-334 | every view holding the node, deepest first, loses the node and its incident edges, and the tree stays valid |
| GraphViews.NodeAbsentBelow | library/talipot-core/src/GraphView.cpp:311-316 | a view without the node has no subgraph holding it or an edge at it |
| GraphViews.DelNode | library/talipot-core/src/GraphView.cpp:299-336 | the node and its incident edges leave every view of the tree holding them, and the tree stays valid |
| GraphViews.AddNodeUp | library/talipot-core/src/GraphView.cpp:163-173 | adding an existing root node to a subgraph adds it first to every ancestor missing it, and every view of the chain stays valid |
| GraphViews.AddEdgeUp | library/talipot-core/src/GraphView.cpp:235-247 | adding an existing root edge to a subgraph adds it first to every ancestor missing it, and every view of the chain stays valid |
| GraphViews.NodeInAll | library/talipot-core/src/GraphView.cpp:163-173 | a node of a subgraph is a node of every ancestor |
| GraphViews.EdgeInAll | library/talipot-core/src/GraphView.cpp:235-247 | an edge of a subgraph is an edge of every ancestor |
| GraphViews.AddEdgesValid | library/talipot-core/src/GraphView.cpp:213-227 | adding distinct new edges whose ends are nodes of the view, one by one, keeps the view valid |
| GraphViews.RestoreNodesValid | library/talipot-core/src/GraphView.cpp:149-161 | adding distinct new nodes one by one keeps the view valid |
| GraphViews.AddThenRemoveSame | library/talipot-core/src/GraphView.cpp:200-347 | an edge added to a view can be removed, and removing it gives back the view exactly |
| GraphViews.AddThenRemoveKeepsData | library/talipot-core/src/GraphView.cpp:200-347 | adding then removing an edge gives back every node's data, even when the edge list had repeats |
| GraphIterators.PrepareNext | library/talipot-core/src/GraphIterators.cpp:94-104 | what the iterator has pending is exactly the remaining root edges that are elements of the view; nothing is pending once they run out |
| GraphIterators.Start | library/talipot-core/src/GraphIterators.cpp:85-90 | a new iterator has pending exactly the root's edges of the node in the direction asked that are elements of the view |
| GraphIterators.HasNextIffPending | library/talipot-core/src/GraphIterators.cpp:113-115 | `hasNext` holds exactly when something is left to yield |
| GraphIterators.Next | library/talipot-core/src/GraphIterators.cpp:105-112 | `next` returns the first pending edge and leaves the rest pending |
| GraphIterators.Drain | library/talipot-core/src/GraphIterators.cpp:105-115 | draining with `hasNext`/`next` yields what was pending, in order |
| GraphIterators.DrainEdges | library/talipot-core/src/GraphIterators.cpp:85-148 | a drained edge iterator yields the root's edges of the node that are in the view, in root order |
| GraphIterators.DrainedOutIn | library/talipot-core/src/GraphIterators.cpp:85-148 | for a subgraph of the root the out-edges (in-edges) yielded are exactly the view's edges leaving (entering) the node, each once |
| GraphIterators.DrainedInOut | library/talipot-core/src/GraphIterators.cpp:150-180 | the in-out edges yielded are exactly the view's edges with an end at the node |
| GraphIterators.NodesOf | library/talipot-core/src/GraphIterators.cpp:27-83 | the node iterators map each yielded edge to its target, source or opposite end |
| GraphIterators.NodesAreElements | library/talipot-core/src/GraphIterators.cpp:33-60 | every node yielded is an element of the view and the other end of the edge it came from |
| GraphAbstracts.Ids | library/talipot-core/src/GraphAbstract.cpp:109-117 | the ids of a list of graphs, one per graph, in the list's order |
| GraphAbstracts.ForestHolds | library/talipot-core/src/GraphAbstract.cpp:109-117 | each direct subgraph, and each of its descendants, is a descendant of the graph |
| GraphAbstracts.NthSubGraph | library/talipot-core/src/GraphAbstract.cpp:100-107 | nothing exactly when `n` is at or past the number of subgraphs; otherwise the `n`-th subgraph |
| GraphAbstracts.FindFrom | library/talipot-core/src/GraphAbstract.cpp:223-231 | the first position at or after `i` whose subgraph matches; none exactly when no later subgraph matches |
| GraphAbstracts.GetSubGraph | library/talipot-core/src/GraphAbstract.cpp:223-241 | a direct subgraph with that id (or name) is returned exactly when one exists, and it is the first matching one in the list of subgraphs |
| GraphAbstracts.IsSubGraphIff | library/talipot-core/src/GraphAbstract.cpp:205-207 | `isSubGraph` holds exactly for the ids of the direct subgraphs |
| GraphAbstracts.IsDescendantIff | library/talipot-core/src/GraphAbstract.cpp:209-221 | `isDescendantGraph` holds exactly for the ids of the proper descendants |
| GraphAbstracts.AnyDescendantIff | library/talipot-core/src/GraphAbstract.cpp:214-218 | the loop over the subgraphs finds an id exactly when it is a descendant of one of them |
| GraphAbstracts.ChildrenInForest | library/talipot-core/src/GraphAbstract.cpp:209-221 | an id is among the descendants exactly when it is a direct subgraph or a descendant of one |
| GraphAbstracts.DescendantTransitive | library/talipot-core/src/GraphAbstract.cpp:209-221 | a descendant of a subgraph is a descendant of the graph |
| GraphAbstracts.GetDescendant | library/talipot-core/src/GraphAbstract.cpp:243-273 | what is returned is a matching descendant, nothing only when no descendant matches; a matching direct subgraph is preferred, and otherwise the match comes from the first subgraph whose descendants hold one |
| GraphAbstracts.DescendantIn | library/talipot-core/src/GraphAbstract.cpp:250-256 | the loop over the subgraphs returns a matching descendant of one of them, nothing only when none of them has one; the match is the one found under the first subgraph whose descendants hold a match |
| GraphAbstracts.ForestMember | library/talipot-core/src/GraphAbstract.cpp:109-117 | every graph counted among the descendants is a direct subgraph or a descendant of one |
| GraphAbstracts.NumberOfDescendantsCounts | library/talipot-core/src/GraphAbstract.cpp:109-117 | `numberOfDescendantGraphs` equals the number of proper descendants |
| GraphAbstracts.DelSubGraph | library/talipot-core/src/GraphAbstract.cpp:119-158 | deleting keeps the graph's own id, name and nodes; deleting an id that is not a direct subgraph changes nothing |
| GraphAbstracts.DelSubGraphDescendants | library/talipot-core/src/GraphAbstract.cpp:119-158 | deleting a subgraph removes exactly that graph and its id from the descendants; its own subgraphs stay as descendants |
| GraphAbstracts.DelSubGraphCount | library/talipot-core/src/GraphAbstract.cpp:119-158 | deleting a subgraph lowers the number of descendants by exactly one |
| GraphAbstracts.DelSubGraphUnique | library/talipot-core/src/GraphAbstract.cpp:119-158 | on a hierarchy with unique ids, the deleted id is no longer a descendant and ids stay unique |
| GraphAbstracts.DelLeaf | library/talipot-core/src/GraphAbstract.cpp:119-158 | deleting a first subgraph that has no subgraphs just drops it from the list |
| GraphAbstracts.DelAllSubGraphs | library/talipot-core/src/GraphAbstract.cpp:174-180 | afterwards the graph has no subgraphs and keeps everything else; every proper descendant is deleted exactly once |
| GraphAbstracts.DelAllSubGraphsOf | library/talipot-core/src/GraphAbstract.cpp:182-191 | nothing happens unless the graph is a direct subgraph; otherwise that subgraph leaves the list and it and each of its descendants are deleted exactly once |
| GraphAbstracts.DelAllSubGraphsOfCount | library/talipot-core/src/GraphAbstract.cpp:182-191 | the number of descendants drops by one plus the size of the deleted subtree |
| GraphAbstracts.GetOneNode | library/talipot-core/src/GraphAbstract.cpp:275-278 | the invalid node exactly when the graph has no nodes; otherwise its first node |
| GraphTools.Pairs | library/talipot-core/src/GraphTools.cpp:516-517 | one (edge, neighbour) pair per edge the iterator yields, in its order, the neighbour being the node `opposite` gives |
| GraphTools.NavOfOk | library/talipot-core/src/GraphTools.cpp:43-55 | the neighbours the direction gives are known for exactly the graph's nodes, and every neighbour is a node of the graph |
| GraphTools.NavOfPairs | library/talipot-core/src/GraphTools.cpp:43-55 | a node's (edge, neighbour) pairs are exactly its out-edges with their targets, its in-edges with their sources, or all its edges with their other ends, as the direction says |
| GraphTools.ClosedHoldsWalk | library/talipot-core/src/GraphTools.cpp:511-524 | a node set closed under taking neighbours that holds the start of a walk holds its end |
| GraphTools.ReachableWithin | library/talipot-core/src/GraphTools.cpp:817-845 | a reachable node is reachable within some number of steps |
| GraphTools.Discover | library/talipot-core/src/GraphTools.cpp:516-523 | the pairs kept are those whose neighbour was not yet visited, each neighbour at most once, in scanning order; afterwards every scanned neighbour is visited |
| GraphTools.BfsStep | library/talipot-core/src/GraphTools.cpp:511-524 | one round moves the front of the queue to the listed nodes and puts the newly seen neighbours, with their edges, at the back, keeping the search invariant; the unvisited nodes drop by the number found |
| GraphTools.Bfs | library/talipot-core/src/GraphTools.cpp:498-525 | nothing when the root is visited already; otherwise the root first, each node once, each reachable from the root and unvisited before, one edge per node after the root forming a search tree, and nothing reachable left out of the closure |
| GraphTools.BfsReachesAll | library/talipot-core/src/GraphTools.cpp:498-525 | a search from scratch whose listed nodes are closed under neighbours lists every node reachable from its root |
| GraphTools.PerformBfs | library/talipot-core/src/GraphTools.cpp:527-557 | nothing on a graph without nodes; otherwise, from the root given, or the source, or the first node, exactly the reachable nodes, each once, root first, with a search-tree edge for each other node |
| GraphTools.SearchFrom | library/talipot-core/src/GraphTools.cpp:527-546 | a search from scratch lists exactly the nodes reachable from its root, each once, root first, with one tree edge per other node |
| GraphTools.CumulativeBfs | library/talipot-core/src/GraphTools.cpp:559-579 | every node of the graph listed exactly once |
| GraphTools.SearchAll | library/talipot-core/src/GraphTools.cpp:559-568 | searching from each start in turn with shared marks lists every start exactly once and nothing else |
| GraphTools.Reverse | library/talipot-core/src/GraphTools.cpp:604-606 | the scan in reverse order: the same pairs, last first |
| GraphTools.DfsStep | library/talipot-core/src/GraphTools.cpp:596-613 | one round pops the top of the stack, lists its node and edge, and pushes the newly seen neighbours found in the reversed scan, keeping the search invariant |
| GraphTools.DfsRound | library/talipot-core/src/GraphTools.cpp:596-613 | one pass of the loop keeps the search invariant and makes progress (fewer unvisited nodes or a shorter stack) |
| GraphTools.DfsDone | library/talipot-core/src/GraphTools.cpp:596-613 | once the stack is empty, the listed nodes are the root first, each once, each reachable and unvisited before, closed under neighbours, with a search tree |
| GraphTools.Dfs | library/talipot-core/src/GraphTools.cpp:583-614 | as the breadth-first search, with a stack whose entries carry the edge that reached them: nothing when the root is visited already; otherwise the root first, each node once, reachable, with a search tree |
| GraphTools.PerformDfs | library/talipot-core/src/GraphTools.cpp:616-646 | nothing on a graph without nodes; otherwise, from the root chosen as for the breadth-first search, exactly the reachable nodes, each once, root first, with a search-tree edge for each other node |
| GraphTools.CumulativeDfs | library/talipot-core/src/GraphTools.cpp:648-668 | every node of the graph listed exactly once |
| GraphTools.SetTrue | library/talipot-core/src/GraphTools.cpp:838 | the caller's map extended by the given nodes, each set to true, other entries kept |
| GraphTools.WalkMarked | library/talipot-core/src/GraphTools.cpp:829-844 | every node of a walk from the start no longer than the bound is marked, at a distance no greater than its position on the walk |
| GraphTools.MarkRound | library/talipot-core/src/GraphTools.cpp:829-844 | one pass of the loop keeps the marking invariant and makes progress |
| GraphTools.MarkDone | library/talipot-core/src/GraphTools.cpp:829-844 | when the queue is empty, the marked nodes are exactly those within the bound, and the result holds true exactly for those other than the start, other entries kept |
| GraphTools.MarkReachable | library/talipot-core/src/GraphTools.cpp:817-845 | the result gains, as true, exactly the nodes other than the start that lie within `maxDistance` steps; every other entry of the caller's map is kept |
| GraphTools.MarkReachableNodes | library/talipot-core/src/GraphTools.cpp:817-845 | as `MarkReachable`, following out-edges, in-edges or both as the edge type says |
| GraphTools.ScanEndsSpec | library/talipot-core/src/GraphTools.cpp:735-765 | the loop only adds to the selection and counts what it adds; once it reaches the end, every end of every selected edge is selected; it stops early exactly when testing and some end is unselected, after adding one node |
| GraphTools.AsWrittenHolds | library/talipot-core/src/GraphTools.cpp:732-773 | as written, the observers' hold count comes back unchanged exactly when the test does not fail, and one higher otherwise |
| GraphTools.AsWrittenLeaksHold | library/talipot-core/src/GraphTools.cpp:746-749 | one selected edge with an unselected end, tested: the function returns with the observers still held |
| GraphTools.MakeSelectionGraph | library/talipot-core/src/GraphTools.cpp:732-773 | the hold count is unchanged on every return; without a test, every end of a selected edge is selected and the count of added nodes is returned; with a test, it passes exactly when all ends were selected, and a failure returns -1 (as unsigned) after adding one node |
| GraphTools.AsWrittenAgrees | library/talipot-core/src/GraphTools.cpp:732-773 | the corrected function differs from the source only in the hold count |
| GraphTools.MakeSelection | library/talipot-core/src/GraphTools.cpp:732-773 | on a graph: the selection grows; without a test, every selected edge of the graph has both ends selected, and every node added is an end of a selected edge |
| GraphTools.SelectedEnds | library/talipot-core/src/GraphTools.cpp:735-736 | the ends the loop meets are exactly the ends of the graph's selected edges |
| SimpleTests.NoTwin | library/talipot-core/src/SimpleTest.cpp:155-159 | an edge not looked at yet, whose other end was not seen in the current node's scan, has no parallel edge among those looked at |
| SimpleTests.LoopsStep | library/talipot-core/src/SimpleTest.cpp:151-153 | looking at one more edge adds it to the loops exactly when both its ends are the scanned node |
| SimpleTests.ParSeen | library/talipot-core/src/SimpleTest.cpp:155-156 | an edge whose other end was already seen in this scan is reported parallel, keeping the parallel-edge invariant |
| SimpleTests.ParNew | library/talipot-core/src/SimpleTest.cpp:157-159 | an edge with no parallel edge among those looked at is not reported |
| SimpleTests.ScanPair | library/talipot-core/src/SimpleTest.cpp:140-160 | one (edge, other end) pair: skipped when the edge was looked at; otherwise the edge is marked, reported as a loop when it is one and as parallel when its other end was seen, keeping the scan's invariants |
| SimpleTests.NodeDone | library/talipot-core/src/SimpleTest.cpp:136-161 | once a node's pairs are read, the edges looked at are exactly those met from the nodes scanned so far |
| SimpleTests.ScanNode | library/talipot-core/src/SimpleTest.cpp:136-161 | scanning one node with a fresh set of seen opposites extends the edges looked at by those met from it, keeping the loop and parallel-edge invariants |
| SimpleTests.ScanAll | library/talipot-core/src/SimpleTest.cpp:126-164 | after every node is scanned, the loops are exactly the loop edges, each once, and of every two parallel edges at least one is reported, nothing else being reported |
| SimpleTests.EdgeSet | library/talipot-core/src/SimpleTest.cpp:131-132 | the edges of the graph, as a set |
| SimpleTests.PairOfGraph | library/talipot-core/src/SimpleTest.cpp:134-149 | a pair read at a node is exactly an edge of the graph joining that node to the other end, in the direction the test reads |
| SimpleTests.ScanOfGraph | library/talipot-core/src/SimpleTest.cpp:134-149 | the pairs of a valid graph meet the scan's requirements |
| SimpleTests.LoopsAndParallelEdges | library/talipot-core/src/SimpleTest.cpp:126-164 | `getLoopsAndParallelEdges`: every loop of the graph reported once; of two parallel edges at least one reported parallel, and every edge reported parallel has an earlier twin |
| SimpleTests.EmptyIffSimple | library/talipot-core/src/SimpleTest.cpp:100 | both lists are empty exactly when the graph has no loop and no two parallel edges |
| SimpleTests.IsSimple | library/talipot-core/src/SimpleTest.cpp:90-101 | the answer computed afresh is true exactly when the graph has no loop and no parallel edges |
| SimpleTests.Unique | library/talipot-core/src/SimpleTest.cpp:110-111 | `uniqueIterator`: every element kept once, nothing added |
| SimpleTests.MakeSimple | library/talipot-core/src/SimpleTest.cpp:103-124 | nothing deleted from a simple graph; otherwise the deleted edges are distinct edges of the graph, what is left is simple, and every non-loop edge keeps an edge with the same ends |
| SimpleTests.SimpleLeft | library/talipot-core/src/SimpleTest.cpp:108-115 | deleting the reported loops and parallel edges leaves a simple set that keeps one edge of every class of non-loop parallel edges |
| SimpleCache.DeleteResult | library/talipot-core/src/SimpleTest.cpp:33-36 | `deleteResult`: the graph's entry and listener removed, every other graph's entry and listener kept |
| SimpleCache.AddKeepsNotSimple | library/talipot-core/src/SimpleTest.cpp:47-53 | adding edges keeps a graph that is not simple not simple |
| SimpleCache.DelKeepsSimple | library/talipot-core/src/SimpleTest.cpp:55-61 | deleting an edge keeps a simple graph simple |
| SimpleCache.UpdateOthers | library/talipot-core/src/SimpleTest.cpp:40-78 | a change to one graph leaves every other graph as it was |
| SimpleCache.StepSound | library/talipot-core/src/SimpleTest.cpp:40-78 | with the corrected `treatEvent`, every change a graph can make keeps every cached result equal to the graph's real simplicity |
| SimpleCache.IsSimpleCached | library/talipot-core/src/SimpleTest.cpp:90-101 | the cached answer when there is one, and nothing changes; otherwise the computed answer, stored, with the listener registered |
| SimpleCache.IsSimpleCachedSound | library/talipot-core/src/SimpleTest.cpp:90-101 | a sound cache answers `isSimple` truly and stays sound |
| SimpleCache.DeleteAll | library/talipot-core/src/SimpleTest.cpp:113-115 | deleting edges one by one removes exactly those edges from the graph and keeps every edge's ends |
| SimpleCache.DeleteAllSound | library/talipot-core/src/SimpleTest.cpp:113-115 | deleting edges one by one, each deletion sending its event, keeps the cache sound |
| SimpleCache.MakeSimpleCached | library/talipot-core/src/SimpleTest.cpp:103-124 | afterwards the cache holds true for the graph |
| SimpleCache.MakeSimpleCachedSound | library/talipot-core/src/SimpleTest.cpp:103-124 | when what is left is simple, `makeSimple` with the listener registered again leaves a sound cache |
| SimpleCache.MakeSimpleLeavesStale | library/talipot-core/src/SimpleTest.cpp:113-121 | as written, after `makeSimple` removes one of two parallel edges, a third edge from 1 to 2 goes unnoticed and `isSimple` still answers true for a graph that is not simple |
| SimpleCache.MakeSimpleTracksAddition | library/talipot-core/src/SimpleTest.cpp:113-121 | with the listener registered again, the same third edge drops the cached result |
| SimpleCache.BulkAdditionMissed | library/talipot-core/src/SimpleTest.cpp:46-69 | as written, a bulk addition of a parallel edge to a graph cached simple is ignored and leaves the cache unsound |
| SimpleCache.SetEndsMissed | library/talipot-core/src/SimpleTest.cpp:46-69 | as written, moving an edge's ends onto another edge's ends in a graph cached simple is ignored and leaves the cache unsound |
| ConnectedTests.InOutSymmetric | library/tulip-core/src/ConnectedTest.cpp:98-112 | in a valid graph, in-out neighbours go both ways: an edge is listed at each of its ends |
| ConnectedTests.ReachableTrans | library/tulip-core/src/ConnectedTest.cpp:94-115 | two walks joined end to start form a walk |
| ConnectedTests.ReachableBack | library/tulip-core/src/ConnectedTest.cpp:94-115 | with symmetric neighbours, a node reached from another reaches it back |
| ConnectedTests.ClosedBack | library/tulip-core/src/ConnectedTest.cpp:94-115 | with symmetric neighbours, a set closed under neighbours that holds the end of a walk holds its start |
| ConnectedTests.UnionHas | library/tulip-core/src/ConnectedTest.cpp:80-117 | a node is among the nodes of all components exactly when it is in one of them |
| ConnectedTests.SearchedComponent | library/tulip-core/src/ConnectedTest.cpp:88-115 | the nodes a search lists from an unvisited root are exactly those reachable from it, and the marks stay closed under neighbours |
| ConnectedTests.SweepRound | library/tulip-core/src/ConnectedTest.cpp:80-117 | one node of the sweep keeps the sweep's invariant: skipped when marked, otherwise the start of a new component |
| ConnectedTests.SweepAppend | library/tulip-core/src/ConnectedTest.cpp:83-116 | the component searched from an unmarked node extends the list of components, keeping them disjoint, covering and in order |
| ConnectedTests.AppendDisjoint | library/tulip-core/src/ConnectedTest.cpp:83-116 | a component found outside the earlier ones overlaps none of them |
| ConnectedTests.AppendOrdered | library/tulip-core/src/ConnectedTest.cpp:80-117 | a component found from the first unvisited node keeps the components in the order of their first nodes |
| ConnectedTests.ConnectedComponents | library/tulip-core/src/ConnectedTest.cpp:74-118 | the components cover exactly the graph's nodes without overlapping; each lists, once each, the nodes reachable from its first node; each first node is the first node of the graph outside the earlier components |
| ConnectedTests.ToSets | library/tulip-core/src/ConnectedTest.cpp:121-137 | each component as a set with the same members, one set per component |
| ConnectedTests.ConnectedComponentSets | library/tulip-core/src/ConnectedTest.cpp:121-137 | the component sets cover the nodes without overlapping, and each is a connected component |
| ConnectedTests.SetsOk | library/tulip-core/src/ConnectedTest.cpp:121-137 | the component sets keep what the component lists state |
| ConnectedTests.Firsts | library/tulip-core/src/ConnectedTest.cpp:202-208 | the first node of each component, in order |
| ConnectedTests.FirstsRepresent | library/tulip-core/src/ConnectedTest.cpp:202-208 | the first nodes of the components represent them: each node is reached from exactly one of them |
| ConnectedTests.EarlierReached | library/tulip-core/src/ConnectedTest.cpp:202-208 | a node of the earlier components is reached from the first node of one of them |
| ConnectedTests.FirstsOrdered | library/tulip-core/src/ConnectedTest.cpp:202-208 | the first nodes come in graph order, each the first node no earlier search reached |
| ConnectedTests.Connect | library/tulip-core/src/ConnectedTest.cpp:190-209 | nothing when the cached result says connected; otherwise one node per component, in graph order, each the first node not reached by an earlier search |
| ConnectedTests.ReachedNodes | library/tulip-core/src/ConnectedTest.cpp:140-170 | the nodes reached from a node of a valid graph are nodes of it |
| ConnectedTests.ConnectedFromOne | library/tulip-core/src/ConnectedTest.cpp:174-188 | with symmetric neighbours, all nodes are joined exactly when one of them reaches them all |
| ConnectedTests.OneIffConnected | library/tulip-core/src/ConnectedTest.cpp:52-72 | a graph with nodes has at least one representative, and exactly one exactly when it is connected |
| ConnectedTests.ApartNotJoined | library/tulip-core/src/ConnectedTest.cpp:52-72 | two representatives apart mean the graph is not connected |
| ConnectedTests.IsConnected | library/tulip-core/src/ConnectedTest.cpp:174-188 | the cached result when there is one; otherwise true exactly when every two nodes are joined (true without nodes) |
| ConnectedTests.CountIffConnected | library/tulip-core/src/ConnectedTest.cpp:183-184 | a search from one node counts every node exactly when all nodes are joined |
| ConnectedTests.NumberOfConnectedComponents | library/tulip-core/src/ConnectedTest.cpp:52-72 | 0 and nothing stored for a graph without nodes; otherwise a positive count, stored as connected exactly when it is 1; when the cache did not say connected, it is 1 exactly when the graph is connected and is the number of components |
| ConnectedTests.Link | library/tulip-core/src/ConnectedTest.cpp:46-47 | adding an edge changes no node set |
| ConnectedTests.LinkAdjacent | library/tulip-core/src/ConnectedTest.cpp:46-47 | after an edge from a to b is added, the old neighbours remain and a and b are neighbours both ways; nothing else is new |
| ConnectedTests.WithLinks | library/tulip-core/src/ConnectedTest.cpp:46-47 | adding edges one by one changes no node set |
| ConnectedTests.SubReachable | library/tulip-core/src/ConnectedTest.cpp:46-47 | more neighbours reach at least as much |
| ConnectedTests.WithLinksAdjacent | library/tulip-core/src/ConnectedTest.cpp:46-47 | added edges keep the old neighbours, join their own ends both ways and keep neighbours symmetric |
| ConnectedTests.Chain | library/tulip-core/src/ConnectedTest.cpp:46-47 | the edges `makeConnected` adds: each listed node to the next, one fewer than the list |
| ConnectedTests.ChainLinked | library/tulip-core/src/ConnectedTest.cpp:46-47 | along the chain each listed node becomes a neighbour of the next, the old neighbours staying |
| ConnectedTests.ChainJoins | library/tulip-core/src/ConnectedTest.cpp:37-50 | linking one node of each component to the next joins all nodes |
| ConnectedTests.ChainReaches | library/tulip-core/src/ConnectedTest.cpp:46-47 | along the chain the first listed node reaches every other listed node |
| ConnectedTests.MakeConnected | library/tulip-core/src/ConnectedTest.cpp:37-50 | one node per component, in graph order, with an edge from each to the next; afterwards the graph is connected |
| ConnectedTests.ChainConnects | library/tulip-core/src/ConnectedTest.cpp:37-50 | chaining one node per component joins only nodes of the graph and connects it |
| ConnectedCache.Update | library/tulip-core/src/ConnectedTest.cpp:211-257 | a change to one graph leaves the other graphs as they were; a deleted graph leaves the world |
| ConnectedCache.IsolatedUnreached | library/tulip-core/src/ConnectedTest.cpp:218-220 | a node added without edges is reached from no other node |
| ConnectedCache.AddNodesDisconnect | library/tulip-core/src/ConnectedTest.cpp:218-220 | new nodes without edges leave a graph that had nodes not connected |
| ConnectedCache.MoreKeepsJoined | library/tulip-core/src/ConnectedTest.cpp:227-235 | adding edges keeps a connected graph connected |
| ConnectedCache.StepSound | library/tulip-core/src/ConnectedTest.cpp:211-257 | with the corrected `treatEvent`, every event that fits keeps every cached result equal to the graph's real connectivity |
| ConnectedCache.IsConnectedCached | library/tulip-core/src/ConnectedTest.cpp:174-188 | the cached result when there is one; true for a graph without nodes, nothing stored; otherwise the computed result, stored, with the listener registered |
| ConnectedCache.IsConnectedCachedSound | library/tulip-core/src/ConnectedTest.cpp:174-188 | a sound cache answers `isConnected` truly and stays sound |
| ConnectedCache.ComponentsCached | library/tulip-core/src/ConnectedTest.cpp:52-72 | 0 for a graph without nodes; otherwise the count, stored as connected exactly when it is 1, with the listener registered |
| ConnectedCache.ComponentsCachedSound | library/tulip-core/src/ConnectedTest.cpp:52-72 | with a true count, `numberOfConnectedComponents` keeps the cache sound |
| ConnectedCache.MakeConnectedSound | library/tulip-core/src/ConnectedTest.cpp:37-50 | the result erased and the listener removed before edges are added keeps the cache sound whatever the graph becomes |
| ConnectedCache.AddNodesMissed | library/tulip-core/src/ConnectedTest.cpp:217-249 | as written, a bulk addition of a node to a one-node graph cached connected is ignored and leaves the cache unsound |
| ConnectedCache.AddEdgesMissed | library/tulip-core/src/ConnectedTest.cpp:217-249 | as written, a bulk addition of an edge joining a graph cached not connected is ignored and leaves the cache unsound |
| ConnectedCache.SetEndsMissed | library/tulip-core/src/ConnectedTest.cpp:217-249 | as written, moving the ends of the only edge of a connected two-node graph is ignored and the cache still answers connected |
| ConnectedCache.ChangesTracked | library/tulip-core/src/ConnectedTest.cpp:217-249 | with the corrected `treatEvent`, each of the three events reaches the cache |
| UpdatesRecorder.Insert | library/talipot-core/src/GraphUpdatesRecorder.cpp:942-946 | the set under a key gains the element, created when missing; every other key's set is unchanged |
| UpdatesRecorder.EraseIn | library/talipot-core/src/GraphUpdatesRecorder.cpp:1341-1346 | the set under a key loses the element, created when missing; every other key's set is unchanged |
| UpdatesRecorder.RecordContainer | library/talipot-core/src/GraphUpdatesRecorder.cpp:199-218 | a node's adjacency is saved the first time only: earlier saves are kept, and a new save holds the adjacency given |
| UpdatesRecorder.Dropped | library/talipot-core/src/GraphUpdatesRecorder.cpp:205-216 | the adjacency without its last entry (or last two, for a loop): put back together with those entries it is the adjacency |
| UpdatesRecorder.StripTrailing | library/talipot-core/src/GraphUpdatesRecorder.cpp:223-239 | the bulk scan keeps a prefix of the adjacency; everything it takes off is among the edges searched, and the last edge kept is not |
| UpdatesRecorder.StripRestores | library/talipot-core/src/GraphUpdatesRecorder.cpp:220-241 | when the edges searched are the batch and the node's last edge before the batch is not one of them, the scan gives back the adjacency before the batch |
| UpdatesRecorder.EraseFirst | library/talipot-core/src/GraphUpdatesRecorder.cpp:249-251 | one occurrence of the edge taken out when it is there; nothing changes otherwise |
| UpdatesRecorder.RemoveFromContainer | library/talipot-core/src/GraphUpdatesRecorder.cpp:243-253 | the edge taken out of the saved adjacency of the node, if one is saved; the other saved adjacencies are kept |
| UpdatesRecorder.BeforeSetNodeValue | library/talipot-core/src/GraphUpdatesRecorder.cpp:1329-1371 | nothing once the node default changed; for an added node no old value is saved (and nothing at all unless recording can restart); otherwise the first value of the node is saved and later ones ignored; values saved before are kept |
| UpdatesRecorder.BeforeSetEdgeValue | library/talipot-core/src/GraphUpdatesRecorder.cpp:1385-1427 | the same for edges, an edge counting as added once its ends are kept as added |
| UpdatesRecorder.BeforeSetNodeValues | library/talipot-core/src/GraphUpdatesRecorder.cpp:1041-1048 | a node's value saved for each property not skipped whose default did not change, unless the node was added; values saved before are kept |
| UpdatesRecorder.BeforeSetEdgeValues | library/talipot-core/src/GraphUpdatesRecorder.cpp:1123-1130 | an edge's value saved for each property not skipped whose default did not change, unless the edge was added; values saved before are kept |
| UpdatesRecorder.BeforeSetAllNodeValue | library/talipot-core/src/GraphUpdatesRecorder.cpp:1373-1383 | unless done before, the non-default node values are saved and the old node default kept; nothing changes the second time |
| UpdatesRecorder.BeforeSetNodeValuesOf | library/talipot-core/src/GraphUpdatesRecorder.cpp:1376-1378 | the values of the property at the listed nodes not added during the recording are saved |
| UpdatesRecorder.BeforeSetAllEdgeValue | library/talipot-core/src/GraphUpdatesRecorder.cpp:1429-1439 | unless done before, the non-default edge values are saved and the old edge default kept; nothing changes the second time |
| UpdatesRecorder.BeforeSetEdgeValuesOf | library/talipot-core/src/GraphUpdatesRecorder.cpp:1432-1434 | the values of the property at the listed edges not added during the recording are saved |
| UpdatesRecorder.AddNode | library/talipot-core/src/GraphUpdatesRecorder.cpp:940-958 | the node joins the graph's set of added nodes, other graphs' sets unchanged; it is added to the hierarchy exactly when the graph is the root; no value is saved at the root; values saved before are kept |
| UpdatesRecorder.AddNodeSeq | library/talipot-core/src/GraphUpdatesRecorder.cpp:85-87 | each node of the list joins the graph's set of added nodes; no other graph's set changes |
| UpdatesRecorder.AddNodes | library/talipot-core/src/GraphUpdatesRecorder.cpp:82-90 | when the graph has at least as many nodes as announced, its last nodes join its set of added nodes; with more announced the recorder is unchanged |
| UpdatesRecorder.DelNode | library/talipot-core/src/GraphUpdatesRecorder.cpp:1013-1053 | a node added to the graph during the recording is only taken out of its added set; otherwise it is noted deleted, its values for the graph's local properties not added during the recording are saved, and at the root its first adjacency is saved |
| UpdatesRecorder.AddNodeThenDelNode | library/talipot-core/src/GraphUpdatesRecorder.cpp:940-1053 | adding a node and deleting it again within one recording undoes only the note of the addition in the graph's added set |
| UpdatesRecorder.AddNodeThenDelNodeAtRoot | library/talipot-core/src/GraphUpdatesRecorder.cpp:940-1053 | at the root, when recording cannot restart, a node added then deleted leaves the recorder as it was but for the node being in the hierarchy's added nodes |
| UpdatesRecorder.SaveEnds | library/talipot-core/src/GraphUpdatesRecorder.cpp:1132-1136 | both ends of the edge have a saved adjacency, each the current one when saved now; earlier saves kept |
| UpdatesRecorder.SaveEndsBefore | library/talipot-core/src/GraphUpdatesRecorder.cpp:968-974 | both ends have a saved adjacency, each the one it had before the edge was appended; earlier saves kept |
| UpdatesRecorder.SaveEndsStripped | library/talipot-core/src/GraphUpdatesRecorder.cpp:996-1002 | both ends have a saved adjacency, each the current one with its trailing run of searched edges taken off; earlier saves kept |
| UpdatesRecorder.AddEdge | library/talipot-core/src/GraphUpdatesRecorder.cpp:960-982 | the edge joins the graph's set of added edges; at the root its ends are kept and each end's adjacency before the edge saved, no value being saved; elsewhere ends and adjacencies are untouched; values saved before are kept |
| UpdatesRecorder.AddEdgeSeq | library/talipot-core/src/GraphUpdatesRecorder.cpp:960-982 | adding edges one by one keeps every adjacency and value saved before |
| UpdatesRecorder.AddEdgeSeqAdds | library/talipot-core/src/GraphUpdatesRecorder.cpp:960-982 | after adding edges one by one, each is in the graph's added set, the old ones stay and no other graph's set changes |
| UpdatesRecorder.AddBatchEdge | library/talipot-core/src/GraphUpdatesRecorder.cpp:992-1010 | one edge of a batch: as `addEdge`, each end's adjacency saved with the searched edges stripped from its end |
| UpdatesRecorder.AddBatch | library/talipot-core/src/GraphUpdatesRecorder.cpp:992-1010 | a batch never drops a graph from the added-edge map, touches no adjacency away from the root, and keeps every adjacency and value saved before |
| UpdatesRecorder.AddBatchAdds | library/talipot-core/src/GraphUpdatesRecorder.cpp:992-1010 | every edge of a batch is in the graph's set of added edges afterwards |
| UpdatesRecorder.AddBatchKeeps | library/talipot-core/src/GraphUpdatesRecorder.cpp:992-1010 | a batch never takes an edge out of the graph's set of added edges |
| UpdatesRecorder.AddBatchSavesEnds | library/talipot-core/src/GraphUpdatesRecorder.cpp:996-1002 | at the root, both ends of every edge of the batch have a saved adjacency |
| UpdatesRecorder.AddBatchStrips | library/talipot-core/src/GraphUpdatesRecorder.cpp:996-1002 | at the root, each adjacency the batch saves is the node's adjacency with its trailing run of searched edges taken off |
| UpdatesRecorder.Batch | library/talipot-core/src/GraphUpdatesRecorder.cpp:990-993 | the last `nb` edges of the graph, which complete its edge list |
| UpdatesRecorder.SearchedAsWritten | library/talipot-core/src/GraphUpdatesRecorder.cpp:231 | the source searches from one edge before the batch: that edge followed by the batch |
| UpdatesRecorder.AddEdgesAsWritten | library/talipot-core/src/GraphUpdatesRecorder.cpp:984-1011 | TLP_ADD_EDGES as written: the graph's added set created, then the batch added with the ends stripped of the edges the source searches; saved adjacencies and values kept |
| UpdatesRecorder.AddEdges | library/talipot-core/src/GraphUpdatesRecorder.cpp:984-1011 | TLP_ADD_EDGES with each end stripped of the batch's own edges only; saved adjacencies and values kept |
| UpdatesRecorder.ForgetAddedEdge | library/talipot-core/src/GraphUpdatesRecorder.cpp:1057-1081 | an edge added to the graph during the recording is only taken out of its added set, and out of the new adjacencies of its kept ends |
| UpdatesRecorder.DeleteEnds | library/talipot-core/src/GraphUpdatesRecorder.cpp:1084-1114 | the edge noted deleted from the graph, its ends kept the first time only: its ends before any reversal or change of ends at the root, its current ends elsewhere; at the root its reversal and change of ends are forgotten |
| UpdatesRecorder.DelPresentEdge | library/talipot-core/src/GraphUpdatesRecorder.cpp:1084-1137 | after the ends bookkeeping, at the root both ends' adjacencies are saved, elsewhere none; values saved before are kept |
| UpdatesRecorder.DelPresentEdgeSavesValues | library/talipot-core/src/GraphUpdatesRecorder.cpp:1116-1130 | deleting an edge that existed before saves its value for every local property of the graph not added during the recording whose default did not change |
| UpdatesRecorder.DelEdgeAsWritten | library/talipot-core/src/GraphUpdatesRecorder.cpp:1055-1137 | as written, forgetting an added edge also takes it out of the reversed edges; a present edge is deleted as `DelPresentEdge` says |
| UpdatesRecorder.DelEdge | library/talipot-core/src/GraphUpdatesRecorder.cpp:1055-1137 | an edge added to the graph during the recording is only forgotten as added; any other edge is deleted as `DelPresentEdge` says |
| UpdatesRecorder.DelEdgeKeepsReversals | library/talipot-core/src/GraphUpdatesRecorder.cpp:1055-1137 | deleting an edge leaves every other edge's reversal alone, and its own when only its addition is forgotten |
| UpdatesRecorder.AddEdgeThenDelEdge | library/talipot-core/src/GraphUpdatesRecorder.cpp:960-1137 | adding an edge and deleting it again within one recording undoes the note of the addition, changing only the new adjacencies besides |
| UpdatesRecorder.ReversalForgotten | library/talipot-core/src/GraphUpdatesRecorder.cpp:1069-1071 | as written, an edge of the root reversed, then added to a subgraph and deleted from it again, is no longer noted as reversed, while the corrected deletion keeps the note |
| UpdatesRecorder.ReverseEdge | library/talipot-core/src/GraphUpdatesRecorder.cpp:1139-1166 | heeded at the root only: an added edge has its kept ends exchanged; else an edge with new ends has those exchanged; else its reversal note is toggled, nothing else changing but saved adjacencies |
| UpdatesRecorder.ReverseTwice | library/talipot-core/src/GraphUpdatesRecorder.cpp:1139-1166 | reversing an edge twice leaves the recorder as it was but for adjacencies saved on the way |
| UpdatesRecorder.BeforeSetEnds | library/talipot-core/src/GraphUpdatesRecorder.cpp:1168-1188 | heeded at the root for an edge neither changed before nor added: its ends before any reversal are kept and its reversal note dropped; otherwise nothing changes |
| UpdatesRecorder.AfterSetEnds | library/talipot-core/src/GraphUpdatesRecorder.cpp:1190-1203 | heeded at the root: the new ends replace the kept ends of an added edge, or are kept as the edge's new ends |
| UpdatesRecorder.EndsOnce | library/talipot-core/src/GraphUpdatesRecorder.cpp:1168-1188 | a second `beforeSetEnds` changes nothing: only the first ends are kept |
| UpdatesRecorder.ReverseThenDelete | library/talipot-core/src/GraphUpdatesRecorder.cpp:1055-1166 | an edge of the root reversed then deleted is kept as deleted with the ends it had before the reversal, and its reversal is forgotten |
| UpdatesRecorder.SetEndsThenDelete | library/talipot-core/src/GraphUpdatesRecorder.cpp:1055-1203 | an edge of the root whose ends changed and which is then deleted is kept as deleted with its first ends, and its change of ends is forgotten |
| RecorderHierarchy.AddSubGraph | library/talipot-core/src/GraphUpdatesRecorder.cpp:1205-1223 | the pair (graph, subgraph) is pushed at the front of the added subgraphs; an empty subgraph changes nothing else; saved adjacencies and values are kept |
| RecorderHierarchy.AddSubGraphAddsElements | library/talipot-core/src/GraphUpdatesRecorder.cpp:1211-1220 | every node of a subgraph created with nodes, and then every edge, is noted as added to it |
| RecorderHierarchy.Pushed | library/talipot-core/src/GraphUpdatesRecorder.cpp:1240-1242 | one pair per subgraph pushed |
| RecorderHierarchy.PushedHas | library/talipot-core/src/GraphUpdatesRecorder.cpp:1240-1242 | every subgraph pushed is paired with its new parent |
| RecorderHierarchy.AddSubGraphs | library/talipot-core/src/GraphUpdatesRecorder.cpp:1240-1242 | the subgraphs pushed one by one end up in front, the last first, nothing but the hierarchy notes and what `addSubGraph` records changing |
| RecorderHierarchy.AddSubGraphsKeeps | library/talipot-core/src/GraphUpdatesRecorder.cpp:1240-1242 | pushing subgraphs keeps every adjacency and value saved before |
| RecorderHierarchy.EraseAll | library/talipot-core/src/GraphUpdatesRecorder.cpp:1258-1263 | erasing pairs only takes pairs out |
| RecorderHierarchy.EraseAllKeeps | library/talipot-core/src/GraphUpdatesRecorder.cpp:1258-1263 | a pair that is not one of those erased keeps its count |
| RecorderHierarchy.EraseAllRemoves | library/talipot-core/src/GraphUpdatesRecorder.cpp:1258-1263 | an erased pair that was there at most once is gone |
| RecorderHierarchy.RemoveGraphData | library/talipot-core/src/GraphUpdatesRecorder.cpp:1257-1272 | nothing is kept for the graph any more, its own subgraphs are no longer noted as added to it, and nothing else changes |
| RecorderHierarchy.RemoveGraphDataKeeps | library/talipot-core/src/GraphUpdatesRecorder.cpp:1264-1271 | everything kept for another graph is left alone |
| RecorderHierarchy.DelSubGraph | library/talipot-core/src/GraphUpdatesRecorder.cpp:1225-1255 | a subgraph not added during the recording is appended to the deleted subgraphs and nothing else changes; an added one is not; saved adjacencies, values, deleted ends and defaults are kept |
| RecorderHierarchy.DelAddedSubGraph | library/talipot-core/src/GraphUpdatesRecorder.cpp:1230-1245 | deleting a subgraph added once during the recording leaves it no longer noted as added, its own subgraphs now noted as added to its parent and no longer under it |
| RecorderHierarchy.PushedOnly | library/talipot-core/src/GraphUpdatesRecorder.cpp:1240-1242 | pushing pairs a subgraph only with the new parent |
| RecorderHierarchy.AddThenDelSubGraph | library/talipot-core/src/GraphUpdatesRecorder.cpp:1205-1255 | an empty subgraph added and deleted again within one recording, with nothing kept for it, leaves the recorder as it was |
| RecorderHierarchy.RemoveGraphDataNone | library/talipot-core/src/GraphUpdatesRecorder.cpp:1257-1272 | forgetting a graph with nothing kept for it and no subgraph changes nothing |
| RecorderHierarchy.AddLocalProperty | library/talipot-core/src/GraphUpdatesRecorder.cpp:1274-1282 | the property joins the graph's added properties; other graphs' sets and everything else unchanged |
| RecorderHierarchy.DelLocalProperty | library/talipot-core/src/GraphUpdatesRecorder.cpp:1284-1314 | a property added during the recording is taken out of the added set with its renaming and its notes about added elements; any other is noted deleted; nothing else changes |
| RecorderHierarchy.AddThenDelProperty | library/talipot-core/src/GraphUpdatesRecorder.cpp:1274-1314 | a property added and deleted again within one recording is no longer added, and its renaming and value notes are gone; it counts as added or deleted exactly when it was deleted before |
| RecorderHierarchy.PropertyRenamed | library/talipot-core/src/GraphUpdatesRecorder.cpp:1316-1327 | nothing for a property added during the recording or renamed before; otherwise its current name is kept as the name before renaming |
| RecorderHierarchy.RenamedKeepsFirst | library/talipot-core/src/GraphUpdatesRecorder.cpp:1316-1327 | renaming twice keeps the name from before the first renaming |
| RecorderHierarchy.PropertyStatus | library/talipot-core/src/GraphUpdatesRecorder.cpp:925-938 | an added property counts as added or deleted, so does one deleted after being there before, and other graphs' answers are unchanged |
| RecorderHierarchy.DontObserveProperty | library/talipot-core/src/GraphUpdatesRecorder.cpp:899-923 | true exactly when recording cannot restart and nothing is kept about the property's values; then the property leaves its graph's added set and nothing else changes; otherwise nothing changes |
| RecorderHierarchy.ObservedOnceSaved | library/talipot-core/src/GraphUpdatesRecorder.cpp:899-923 | once a node value of the property is saved, the recorder keeps listening to it |
| RecorderHierarchy.BeforeSetAttribute | library/talipot-core/src/GraphUpdatesRecorder.cpp:1441-1455 | the attribute's current value (none when unset) is kept the first time only; every other kept attribute and graph is unchanged |
| RecorderHierarchy.AttributeFirstOnly | library/talipot-core/src/GraphUpdatesRecorder.cpp:1441-1451 | a second change of an attribute records nothing |
| RecorderEvents.TreatEventAsWritten | library/talipot-core/src/GraphUpdatesRecorder.cpp:48-154 | as written, every event but the bulk edge addition and the edge deletion is handled as the corrected dispatch does |
| RecorderEvents.TreatEvent | library/talipot-core/src/GraphUpdatesRecorder.cpp:48-154 | whatever event comes, every note kept before is still kept, unchanged |
| RecorderEvents.KeepsTrans | library/talipot-core/src/GraphUpdatesRecorder.cpp:48-154 | keeping notes across two steps keeps them across both |
| RecorderEvents.NodeAddedKeeps | library/talipot-core/src/GraphUpdatesRecorder.cpp:940-958 | TLP_ADD_NODE keeps every note kept before |
| RecorderEvents.NodeDeletedKeeps | library/talipot-core/src/GraphUpdatesRecorder.cpp:1013-1053 | TLP_DEL_NODE keeps every note kept before |
| RecorderEvents.EdgeAddedKeeps | library/talipot-core/src/GraphUpdatesRecorder.cpp:960-982 | TLP_ADD_EDGE keeps every note kept before |
| RecorderEvents.EdgeDeletedKeeps | library/talipot-core/src/GraphUpdatesRecorder.cpp:1055-1137 | TLP_DEL_EDGE keeps every note kept before |
| RecorderEvents.AddedEdgeForgottenKeeps | library/talipot-core/src/GraphUpdatesRecorder.cpp:1057-1081 | forgetting an added edge keeps every note kept before |
| RecorderEvents.PresentEdgeDeletedKeeps | library/talipot-core/src/GraphUpdatesRecorder.cpp:1084-1137 | deleting an edge that existed before keeps every note kept before |
| RecorderEvents.EdgeReversedKeeps | library/talipot-core/src/GraphUpdatesRecorder.cpp:1139-1166 | TLP_REVERSE_EDGE keeps every note kept before |
| RecorderEvents.EndsToSetKeeps | library/talipot-core/src/GraphUpdatesRecorder.cpp:1168-1188 | TLP_BEFORE_SET_ENDS keeps every note kept before |
| RecorderEvents.EndsSetKeeps | library/talipot-core/src/GraphUpdatesRecorder.cpp:1190-1203 | TLP_AFTER_SET_ENDS keeps every note kept before |
| RecorderEvents.NodesAddedKeeps | library/talipot-core/src/GraphUpdatesRecorder.cpp:82-90 | TLP_ADD_NODES keeps every note kept before |
| RecorderEvents.EdgesAddedKeeps | library/talipot-core/src/GraphUpdatesRecorder.cpp:984-1011 | TLP_ADD_EDGES keeps every note kept before |
| RecorderEvents.SubGraphAddedKeeps | library/talipot-core/src/GraphUpdatesRecorder.cpp:1205-1223 | TLP_AFTER_ADD_SUBGRAPH keeps every note kept before |
| RecorderEvents.SubGraphDeletedKeeps | library/talipot-core/src/GraphUpdatesRecorder.cpp:1225-1255 | TLP_AFTER_DEL_SUBGRAPH keeps every note kept before |
| RecorderEvents.PropertyKeeps | library/talipot-core/src/GraphUpdatesRecorder.cpp:1274-1327 | adding, deleting and renaming a property keep every note kept before |
| RecorderEvents.AttributeKeeps | library/talipot-core/src/GraphUpdatesRecorder.cpp:1441-1455 | setting or removing an attribute keeps every note kept before |
| RecorderEvents.NodeValueKeeps | library/talipot-core/src/GraphUpdatesRecorder.cpp:1329-1371 | TLP_BEFORE_SET_NODE_VALUE keeps every note kept before |
| RecorderEvents.AllNodeValueKeeps | library/talipot-core/src/GraphUpdatesRecorder.cpp:1373-1383 | TLP_BEFORE_SET_ALL_NODE_VALUE keeps every note kept before |
| RecorderEvents.AllEdgeValueKeeps | library/talipot-core/src/GraphUpdatesRecorder.cpp:1429-1439 | TLP_BEFORE_SET_ALL_EDGE_VALUE keeps every note kept before |
| RecorderEvents.EdgeValueKeeps | library/talipot-core/src/GraphUpdatesRecorder.cpp:1385-1427 | TLP_BEFORE_SET_EDGE_VALUE keeps every note kept before |
| RecorderEvents.TreatEventsKeeps | library/talipot-core/src/GraphUpdatesRecorder.cpp:48-154 | however many events come, every note kept first is still kept, unchanged |
| RecorderEvents.Pruned | library/talipot-core/src/GraphUpdatesRecorder.cpp:830-834 | the same set under every key, with the empty sets dropped |
| RecorderEvents.PrunedEmpty | library/talipot-core/src/GraphUpdatesRecorder.cpp:830-834 | nothing is left after pruning exactly when every set is empty |
| RecorderEvents.HasUpdatesIff | library/talipot-core/src/GraphUpdatesRecorder.cpp:811-897 | there are updates exactly when undoing would replay something a fresh recorder would not |
| RecorderEvents.StartHasNoUpdates | library/talipot-core/src/GraphUpdatesRecorder.cpp:811-897 | a fresh recorder has no updates, counted either way |
| RecorderEvents.NodeAddedIsUpdate | library/talipot-core/src/GraphUpdatesRecorder.cpp:830-834 | a node added to any graph is an update |
| RecorderEvents.EdgeAddedIsUpdate | library/talipot-core/src/GraphUpdatesRecorder.cpp:825-827 | an edge added to any graph is an update |
| RecorderEvents.EmptyEdgeSetCounts | library/talipot-core/src/GraphUpdatesRecorder.cpp:825-827 | as written, an edge added to a subgraph and deleted again leaves an empty set that counts as an update, though nothing would be replayed |
| RecorderEvents.EmptyPropertySetCounts | library/talipot-core/src/GraphUpdatesRecorder.cpp:815-817 | as written, a property added and deleted again leaves an empty set that counts as an update, though nothing would be replayed |
| RecorderEvents.StripAppended | library/talipot-core/src/GraphUpdatesRecorder.cpp:229-239 | searched edges appended to an adjacency do not change what the scan keeps |
| RecorderEvents.AddEdgesSavesBefore | library/talipot-core/src/GraphUpdatesRecorder.cpp:984-1011 | at the root, the corrected TLP_ADD_EDGES saves for a node first met in the batch the adjacency it had before the batch |
| RecorderEvents.AddEdgesAsWrittenDropsOne | library/talipot-core/src/GraphUpdatesRecorder.cpp:229-239 | as written, a node whose last edge before the batch is the edge just before the batch has that edge dropped from its saved adjacency too |

## Left out

- Unsigned widths: C++ `unsigned int` and `size_t` values are `nat`. Wrap-around is modelled only where the source relies on it: `size() - 1` of an empty sequence (`NormalizeString`, `VectorGraphOps.SetEdgeOrderAsWritten`), and `UINT_MAX` as `0xFFFF_FFFF` ("no position" in `IdContainers`, the invalid id).
- MinMaxProperties: values are `int` rather than `double`. NaN, rounding and infinities are not modelled. The order used is the total order of `int`.
- Hash-map iteration order: `std::unordered_map` and `flat_hash_map` contents are Dafny `map`s or sets. Where the source's output order follows hash order (the recorder's collections, the cache maps), the model states contents, not order.
- AbstractProperties: one side of a property (nodes or edges) is a `Side<V>` with a default and a map of held values. Edges behave the same and are not written twice. `Assign` models `operator=` for a named property only. For an unnamed property the source also filters by graph membership (AbstractProperty.cxx lines 415-421); that filter appears only in `NonDefaultValuated`. Property notifications and the `PropertyInterface` virtual layer are not modelled.
- Traversals: `GraphTools`, `SimpleTests` and `ConnectedTests` read a graph through `Nav`/`NavOf`, an adjacency map per node in `GraphView` iteration order. `getSource()` is a parameter, because its search over the graph is outside these files.
- Observer dispatch: `Observables` models the observation graph (links, their type bits, holding and the deferred-notification counters). Sending events to listeners, and their delivery order, are reduced to the sets of listening graphs kept by `SimpleCache`, `ConnectedCache` and `MinMaxProperties`. Events are passed in explicitly.
- IdContainers: `clear`, `reserve`, `reIndex` and `sort` are not modelled. Neither are `SGraphIdContainer`'s `clone` and `sort`.
- IdManager: `getState`/`restoreState` are not modelled, nor is the `TLP_NO_IDS_REUSE` build variant.
- MutableContainers: memory ownership (`clone`/`destroy` of stored values) is not modelled, nor are the "not implemented" and "unexpected state" error branches, which cannot be reached. The compression ratio is an exact rational rather than a `double`.
- GraphStorages: the bulk `addNodes`/`addEdges`, `restoreEdge` and the `reserve*` functions are not modelled.
- VectorGraphs: not modelled are `delNode`, `delEdges(n)`, bulk additions, `shuffle` and `swap` (which draw random numbers), `reserve`, `dump`, and the property-value vectors attached to the graph. `integrityTest` is replaced by the invariant `VValid`.
- GraphViews: not modelled are `setEndsInternal` and the deletion branch it shares with `delEdge`, additions from iterators, notifications, `propertyContainer` erasure, `push`/`pop`/`unpop` (undo, driven by the recorder), `sortElts` and `reserve`.
- UpdatesRecorder: `doUpdates` (replaying the recorded changes) is not modelled. Neither are the value snapshots `recordNewValues`, `recordNewNodeValues` and `recordNewEdgeValues`, `startRecording`/`restartRecording`/`stopRecording`, `deleteDeletedObjects`/`deleteValues`, listener registration and `setSubGraphToKeep`.
- UpdatesRecorder.AddEdges: when the batch covers the graph's whole edge list, the source's scan starts one element before the beginning of the vector, which is undefined behaviour. The model then scans the whole list.
- UpdatesRecorder: attribute values and property values are integers, and a property is named by its id. The graph hierarchy is read through a `Ctx` snapshot, not through live `Graph` pointers.
- GraphTools: only the functions on traversal and selection are modelled. `makeProperDag`, spanning trees, Dijkstra, planarity helpers and the other algorithms of the same file are not.
- DataSet: the per-type serializers are parameters (`Serializer`), because their `read`/`write` live in other files.
- AbstractProperties.DefaultReachesOutsiders: holds in the hash state and outside the vector's index range only. `Side` drops an id set to the default from `held`, but in the vector state its slot keeps the old default, which it still reads after the default changes; `MutableContainers.EraseThenSetDefault` states both cases on the container.
- DataSet copying (the copy constructor and `operator=`): a data set is a value here, so a copy is the set itself; the source's copy clones every value and so dereferences a stored null pointer, which the model does not show.
- Settings: the settings store is a list parameter; persistence through `QSettings` is not modelled.
- Time, randomness, files, the GUI and OpenGL rendering are not modelled. `iteratorMap` of `Iterator.h` is not modelled either, since it only wraps another iterator.
- WithParameter.h, DataSet.h, GraphStorage.h, VectorGraph.h and Observable.h are not part of this model. Constants they define are parameters or are named in the module that uses them.
- TlpExport.RootNodes: the range text is proved to expand back to the node ids, but for two nodes the canonical form (`0 1` rather than `0..1`) is not stated.
- GraphStorages.GetEdges: the contract states sortedness and absence of duplicates; membership is stated by the separate lemma `GraphStorages.GetEdgesExactly`.

## Findings

| source | as written | input that shows it | evidently intended | confidence | as-written member | corrected member |
|---|---|---|---|---|---|---|
| library/talipot-core/include/talipot/IdManager.h:225-248 | `addNb` resizes `pos` to `lastPos + nb`, which shrinks it when fewer ids are added than `pos` holds | ids 0, 1, 2 added, then 0 and 1 freed; `addNb(1)` | `pos` only grows, so every element keeps its position | high (not executed) | IdContainers.AddNbAsWrittenLosesElement | IdContainers.AddNb |
| library/talipot-core/src/GraphStorage.cpp:243-278 | `setEnds` removes `e` from the old ends and appends it to the new ends without regard to an end that stays in place | `setEnds(e, tgt, src)` on a non-loop edge | each end that changes loses one copy of `e` and each new end gains one, so the incidence lists stay consistent | medium (not executed) | GraphStorages.SetEndsAsWrittenSwapBreaks | GraphStorages.SetEnds |
| library/talipot-core/src/GraphStorage.cpp:396-421 | `delNode` collects a loop once per occurrence in the incidence list, that is twice, and detaches it twice | a node carrying a loop | each loop is detached once | high (not executed) | GraphStorages.DelNodeAsWrittenLoop | GraphStorages.DelNode |
| library/talipot-core/include/talipot/cxx/MutableContainer.cxx:386-447 | `add` in vector mode counts a new value as non-default even when the sum equals the default, and never uncounts a sum that returns to the default | an empty container with default 0; `add(5, 0)` | the non-default count follows whether the stored sum differs from the default | high (not executed) | MutableContainers.AddAsWrittenCountsZero | MutableContainers.Add |
| library/talipot-core/src/TLPExport.cpp:402-415 | the loop that rewrites node ids inside a `vector<node>` attribute iterates over copies, so the stored vector keeps the old ids | a graph attribute holding node 5 when node 5 is written at position 0 | every node id in the vector is replaced by its position, as for a single node | high (not executed) | TlpExport.ReindexAsWrittenStale | TlpExport.ReindexVectorAgrees |
| plugins/layout/FastOverlapRemoval/PairingHeap.cpp:119-122 | `makeEmpty` drops the tree but leaves `counter` as it was | insert one element, then `makeEmpty` | `size()` is 0 after `makeEmpty`, in agreement with `isEmpty()` | medium (not executed) | PairingHeaps.MakeEmptyAsWrittenKeepsSize | PairingHeaps.MakeEmpty |
| plugins/import/BibTeX/ForceUtf8String.cpp:256-297 | after `\i` the pending accent is not cleared | `\'{\i}e` | "íe"; the accent applies to the dotless i only | high (not executed) | ForceUtf8.DotlessIAsWritten | ForceUtf8.DotlessICorrected |
| library/talipot-core/src/GraphUpdatesRecorder.cpp:811-897 | `hasUpdates` reports any entry of `graphAddedEdges`, even an empty set, while it skips empty sets of added nodes | add an edge to a subgraph and delete it again in the same recording | empty per-graph sets are not updates, as for nodes | low (not executed) | RecorderEvents.EmptyEdgeSetCounts | RecorderEvents.HasUpdatesIff |
| doc/python/gen_plugins_doc.py:282-283 | the default of a `StringCollection` is cut at `find(';')`, which is -1 when there is no `;` | a collection with the single option `Linear` | the whole text when there is no `;` | high (not executed) | PluginDoc.DefaultAsWrittenExample | PluginDoc.CorrectedRowDiffers |
| library/talipot-core/src/GraphStorage.cpp:494-502 | `delAllEdges` empties the incidence lists but keeps every `outDegree` | a storage with one edge | the out-degrees are reset to 0 with the lists | high (not executed) | GraphStorages.DelAllEdgesAsWrittenKeepsDegree | GraphStorages.DelAllEdges |
| plugins/import/BibTeX/NormalizeString.cpp:22 | the loop bound `aKey.size() - 1` wraps around for the empty string | the empty string | the empty string is returned unchanged | high (not executed) | NormalizeString.NormalizeStringAsWritten | NormalizeString.Normalize |
| plugins/import/BibTeX/ForceUtf8String.cpp:926-949 | the `'v'` case for `C` has no `break` and falls into `default: continue`, so Č is never written | `\vCe` | "Če" | high (not executed) | ForceUtf8.CaronCAsWritten | ForceUtf8.CaronCCorrected |
| library/talipot-core/src/VectorGraph.cpp:186-190 | `setEdgeOrder` loops to `v.size() - 1`, which wraps around for an empty order | a node without edges and an empty order | nothing changes | high (not executed) | VectorGraphOps.SetEdgeOrderAsWrittenEmpty | VectorGraphOps.SetEdgeOrder |
| library/talipot-core/src/Observable.cpp:311-340 | `addOnlooker` looks up an existing link undirected, so the reverse link of a mutual observation is never created | `a.addObserver(b)`, then `b.addObserver(a)` | each direction gets its own link | medium (not executed) | Observables.MutualObserversAsWritten | Observables.MutualObserversCorrected |
| library/talipot-core/src/GraphTools.cpp:744-758 | with `test` set, the early `return -1` skips `Observable::unholdObservers()` | one selected edge with an unselected end, tested | the observers are released on every return | high (not executed) | GraphTools.AsWrittenLeaksHold | GraphTools.MakeSelectionGraph |
| library/talipot-core/src/SimpleTest.cpp:103-124 | in a release build, `makeSimple` stores `true` for the graph after its listener was removed by the first deletion | two parallel edges made simple, then a third parallel edge | the listener is registered again with the result, so the next change clears it | medium (not executed) | SimpleCache.MakeSimpleLeavesStale | SimpleCache.MakeSimpleCachedSound |
| library/talipot-core/src/SimpleTest.cpp:40-78 | `treatEvent` ignores `TLP_ADD_EDGES` and `TLP_AFTER_SET_ENDS` | a graph cached simple receiving a parallel edge through `addEdges` | every change that can create a loop or a parallel edge clears a cached `true` | medium (not executed) | SimpleCache.BulkAdditionMissed | SimpleCache.StepSound |
| library/tulip-core/src/ConnectedTest.cpp:211-257 | `treatEvent` ignores `TLP_ADD_NODES`, `TLP_ADD_EDGES` and `TLP_AFTER_SET_ENDS` | a one-node graph cached connected receiving a node through `addNodes` | every change that can alter connectivity updates or clears the cached result | medium (not executed) | ConnectedCache.AddNodesMissed | ConnectedCache.StepSound |
| library/talipot-core/src/GraphUpdatesRecorder.cpp:220-241 | the search for the batch's edges starts at `gEdges.size() - nbAdded - 1`, one edge before the batch | a node whose last edge before the batch is the graph's edge just before it | only the batch's own edges are taken off the saved adjacency | medium (not executed) | RecorderEvents.AddEdgesAsWrittenDropsOne | RecorderEvents.AddEdgesSavesBefore |
| library/talipot-core/src/GraphUpdatesRecorder.cpp:1055-1082 | deleting an edge newly added to a subgraph also erases the edge from `revertedEdges`, though the reversal was of the root edge | a root edge reversed, then added to a subgraph and deleted from it | the reversal stays recorded, so undo still reverts it | medium (not executed) | UpdatesRecorder.ReversalForgotten | UpdatesRecorder.DelEdgeKeepsReversals |
