# Papuga: model and proofs

Papuga turns tagged documents (XML, JSON) and tables of scripting languages into method calls and variant values.
This project models its core and proves what that core is for. `dafny verify dfyconfig.toml` checks all of it.

## What is modelled

**Requests.** The request automaton (`RequestState`, `RequestRuns`, `RequestContext`) consumes open, attribute, content
and close events, numbers them, and records scopes of items, calls and results. The path automaton is an arbitrary list
of triggered events per input event. The central result is that on every run the recorded scopes form a laminar family
(`RunsAreLaminar`). The resolver (`ItemResolver`) relies on it: its cached cursor and its skipping give exactly the
inclusion-maximal matches in document order; `InheritedItems` has a document with an inherited item that is missed. The
backward scans of the prioritisation rely on it as well (`PrioritizedMeaning`); `PrioritizedCalls` has a document in
which they compare with a missing name. `CallGroups` has the groups of calls and the order of execution, `RequestParser`
the way from a JSON tree over a bracketed list of events to a finished request. `RecordedItems`, `RecordedPlaces` and
`RecordedCalls` say on runs, in terms of the events of the document, what is kept, under which item, where, and that
nothing gets lost; `JsonDocuments` says what the events of a JSON tree stand for.

**Serializations.** `Serialization` has the chain of chunks with its free list as heap objects; it refines a sequence of
nodes, with end positions as snapshots and roll-back to them. `SerializationTrees` gives node sequences their meaning as
trees. On top of it are `Flatten`, `SkipStructure`, the copy in canonical form (`KeyMaps`, `CanonicalTrees`,
`CanonicalCopy`, with numbers as names in `Decimals`) and the tables of Lua (`LuaTables`), whose writer tries an array
first and rolls back; `TableMeaning` says which table a well-formed serialization stands for.

**Memory.** `Allocator` has the bump allocator over a chain of arrays, with the 32-bit arithmetic of its sizes, and
`SegmentedStack` the stack in a chain of nodes.

**Schemas.** `SchemaExpansion` has the compiler from schema trees to path expressions, `StructureArrays` the serializer
that merges adjacent equal structures to arrays, `SchemaTree` the numbering of description trees and the lifting of deep
nodes. `SchemaReferences` says what the expansion reaches and which operations the nodes have, `SchemaPaths` which paths
of elements the expressions match, `SchemaOperations` that operations go in pairs, and `CompiledRequests` that a compiled
schema drives the serializer to balanced output. `DeepNodes` says what the lifting keeps and when it succeeds, by the
places of the nodes.

**Encoders.** `UriEncode` and `MarkupEncoding`.

The classes follow the objects of the source with their fields; each method is proved against a function on values, and
the lemmas state what these functions mean, by an independent definition where there is one: maximal matches for the
resolver, trees for serializations, equality up to member order for the canonical form, runs of items for arrays.

## Where the code differs from what one expects

- `InheritedItems.SearchInherited`: the search for an inherited item stops at an item that was closed before, and misses
  the one around; `ItemResolver.CoveringSearchIsCompleteIff` has the exact condition.
- `CallGroups.ReopenedGroupBreaksOrder`, `CallGroups.NegativeGroupIdBreaksOrder`: opening a group again can move its calls
  behind others, and a negative group id can move them before others. `GroupIdsFollowDefinitionOrder` says exactly when
  the order of definition is kept, `CallsRunGroupByGroup` and `CallsRunOutOfOrder` what that means for the calls.
- `RequestContext.AutomatonContext.GroupAssignments`: the loop that gives assignments a common group has no effect.
- `PrioritizedCalls.MissingNameIsCompared`: a result name can be handed to `strcmp` together with a null pointer;
  `RequestRuns.NameIsMissedIff` has the exact condition.
- `Allocator.LargeRequests`: the limit of a block is written as `1<<31`, which is negative as an `int`, so it admits sizes
  for which the sums overflow or the doubling does not end. `RequestOutcome` says exactly which requests end with a block
  inside of its array; `Alloc` is proved for those.
- `StructureArrays.SecondElementIsNotSelected`: the second element of a named array is compared with the schemas of the
  array and not with those around it; `Accepted` has the exact condition.
- `StructureArrays.EmptyElementIsNotRead`: an atomic element without content leaves its name behind only, and the name
  that follows takes the place of the value; `OutputMeaning` says exactly when the output can be read.
- `SchemaPaths.OtherNameIsNotMatched`: a schema is not expanded again below itself, so where a schema refers to itself by an
  element of another name, what is below such an element may match nothing; `MatchedIff` says exactly which paths match.
- `SegmentedStack.Stack.TopN`: the loop over a node does not look at the count, so for a number of elements that does not
  end at a node it writes before the result; `UppermostOfTwo` is an input.
- `UriEncode.CharTable.Encode`: for empty input the terminating zero is written into a buffer of size 0 too.
- `UriEncode.EncodingIsReversible`: preserving the percent sign makes the encoding ambiguous. The end of the list of
  preserved characters counts as preserved, so a zero byte is copied as it is, and an escape needs one byte more than it
  writes.
- `DeepNodes.SecondDeepNodeIsLost`: a deep node that is met again is erased with all that is declared below it;
  `NothingIsLost` says when nothing gets lost.
- `DeepNodes.RepeatedDeepNode`: a deep child of the root that is met again below, or a deep node below one of its name, is
  reported as ambiguous even if it has the same id; `NotAmbiguousIff` has the exact condition.

## Model

| member | source | states |
|---|---|---|
| `Scopes.InnerIsStrict` | src/request_utils.hpp:20-58 | a scope lies in the inner part of another exactly if it lies in that scope and does not begin with it |
| `ScopeObjects.InsertIsStable` | src/request.cpp:1388-1391 | an object enters the multimap behind all equal keys; the order of the others stays |
| `ScopeObjects.InsertKeepsSorted` | src/request.cpp:899-946 | insertion keeps the order by start, length descending and kind |
| `ScopeObjects.InsertScopes` | src/request.cpp:1388-1391 | insertion adds exactly one scope to those recorded |
| `ItemResolver.SearchKeyFindsLowerBound` | src/request.cpp:899-946 | the key (start, maximal end, search) finds the first entry starting at or behind the start |
| `ItemResolver.EveryMatchIsCovered` | src/request.cpp:2229-2254 | every matching entry lies in exactly one object of the array meaning and is disjoint from all others |
| `ItemResolver.ArrayObjectsAreTops` | src/request.cpp:2229-2254 | every object of the array meaning is an inclusion-maximal match |
| `ItemResolver.ArrayIsInDocumentOrder` | src/request.cpp:2302-2320 | the objects of the array meaning follow each other in the document without overlap, so each comes once |
| `ItemResolver.MeaningAnswers` | src/request.cpp:2229-2254 | in terms of the records: each object is one of them with its reference, level and scope, and every record of the range within the scope lies in one of the objects |
| `ItemResolver.StartsInsideIsNested` | src/request.cpp:2302-2320 | on laminar scopes what starts inside an earlier entry is nested in it; this makes skipping correct |
| `ItemResolver.NextMatchIsTop` | src/request.cpp:2302-2320 | the next match behind everything matched before is maximal |
| `ItemResolver.NothingIsSkipped` | src/request.cpp:2302-2320 | between an item and the next match behind it there is no maximal match |
| `ItemResolver.OneOrMore` | src/request.cpp:2476-2533 | a second search tells one maximal match from several |
| `ItemResolver.CoveringSearchIsCompleteIff` | src/request.cpp:2193-2227 | exactly when a covering item is found: the entry nearest before the scope has to cover it; for inner scopes of one event or none also an earlier one, if the entries from it on end before the scope |
| `ItemResolver.MembersAreSmaller` | src/request.cpp:2359-2378 | what is found for the members of a structure lies properly inside of it |
| `InheritedItems.DocumentRun` | src/request.cpp:1282-1352 | the run of a concrete document records a value around a call and one collected before the call |
| `InheritedItems.CoveringSearchIsIncomplete` | src/request.cpp:2193-2227 | in the map of that run a value covers the call and is not found |
| `InheritedItems.SearchInherited` | src/request.cpp:2193-2227 | the search in the map of that run finds nothing |
| `ItemResolver.RequestIterator.BoundIsBetween` | src/request.cpp:2256-2288 | a place between a smaller and a larger start is the lower bound |
| `ItemResolver.RequestIterator.SetResolverUpperBound` | src/request.cpp:2256-2288 | from any cursor position it ends at the fresh lower bound; other cursors stay |
| `ItemResolver.RequestIterator.ResolveNearItemInsideScope` | src/request.cpp:2229-2254 | answers a value or structure with the level and scope it was recorded with, and one exactly if one of the range lies within the scope |
| `ItemResolver.RequestIterator.ResolveNextInsideItem` | src/request.cpp:2302-2320 | answers the next record that starts behind the current item, with its reference, level and scope, and skips only such that do not |
| `ItemResolver.RequestIterator.ResolveArray` | src/request.cpp:2573-2637 | an array reference answers records of the item, each with its reference, level and scope: exactly those of the range within the scope that lie in no other such one, once each, in document order |
| `ItemResolver.RequestIterator.ResolveSingle` | src/request.cpp:2476-2533 | missing, found or ambiguous exactly as there are none, one or more of these; what is found is recorded with its reference, level and scope |
| `ItemResolver.RequestIterator.ResolveNearItemCoveringScope` | src/request.cpp:2193-2227 | answers, with its reference, level and scope, the last record of the range that is reached going back from the entry nearest before the scope, passing only entries that end before it, and one exactly if there is one |
| `ItemResolver.RequestIterator.SeekNearest` | src/request.cpp:2197-2208 | goes back to the entry nearest before a number, and fails exactly if there is none |
| `ItemResolver.RequestIterator.SeekCovering` | src/request.cpp:2209-2227 | the first match on the way back from the nearest entry, and none exactly if none is reached |
| `RequestState.FeedFrame` | src/request.cpp:1282-1352 | one event counts one up; a successful open or close moves the scope stack by one, nothing else does |
| `RequestRuns.RecordCurrent` | src/request.cpp:1388-1395 | recording the current scope keeps the family laminar |
| `RequestRuns.OpenOk` | src/request.cpp:1282-1303 | opening a scope keeps the family of scopes laminar |
| `RequestRuns.CloseOk` | src/request.cpp:1340-1352 | closing a scope keeps the family of scopes laminar |
| `RequestRuns.ProcessEventKeeps` | src/request.cpp:1466-1668 | every triggered event keeps the invariant |
| `RequestRuns.FeedKeeps` | src/request.cpp:1282-1352 | every input event keeps the invariant, whether it succeeds or fails |
| `RequestRuns.RunsAreLaminar` | src/request.cpp:1282-1352 | after any run, recorded scopes are intervals of its event numbers and any two are nested or disjoint |
| `RequestRuns.RunCounts` | src/request.cpp:1246-1352 | the event counter never exceeds the number of events fed |
| `RequestRuns.MapsAreValid` | src/request.cpp:899-946 | on every run the object maps are sorted and laminar, as the resolver needs them |
| `RequestRuns.InsideMeansRecordedSince` | src/request.cpp:1534-1602 | a call lies in the current scope exactly if it was recorded since that scope opened |
| `RequestRuns.CallsOfScopeAreTail` | src/request.cpp:1540-1575 | the calls of the current scope are the end of the list, so the backward scan may stop early |
| `RequestRuns.PrioritizedMeaning` | src/request.cpp:1534-1602 | nothing happens without a call of the definition in the scope; otherwise exactly the competing calls recorded since it opened disappear |
| `RequestRuns.PrioritizedOrdered` | src/request.cpp:1534-1602 | the calls left keep their order |
| `RequestRuns.EventOrderByType` | src/request.cpp:1246-1280 | events are ordered by their type |
| `RequestRuns.EventOrderMembers` | src/request.cpp:1246-1280 | no triggered event is lost or invented by the ordering |
| `RequestRuns.DrainIsInOrder` | src/request.cpp:1246-1280 | emptying the stacks processes the waiting events one after the other up to the first failure |
| `RequestRuns.ProcessEventsInOrder` | src/request.cpp:1246-1280 | the events of one input are processed in the fixed order of types, last triggered first within a type |
| `RequestRuns.EventOrderIsFixed` | src/request.cpp:136 | values are instantiated first, then collected, then structures closed, calls made, calls prioritised, contexts inherited and results recorded |
| `RecordedItems.RunAccounts` | src/request.cpp:1477-1532 | on every run: each value seen by an event bound to an item is kept for this item or still pending for it, what is kept besides is undefined; each value and each structure closed is referenced once, under its item, and there are no other references |
| `RecordedItems.ReferenceIsOfItem` | src/request.cpp:1477-1532 | a reference under an item is to a value that an event bound to the item saw, to an undefined one, or to a structure of the item that an event closed |
| `RecordedItems.InstanceIsKept` | src/request.cpp:1477-1524 | a value that an event saw is pending for its item, or referenced once under it and under no other |
| `RecordedItems.AnswersAreOfItem` | src/request.cpp:2229-2254 | what an array reference answers on a run is a value seen for the item, an undefined one, or a structure of the item |
| `RecordedItems.DuplicateIff` | src/request.cpp:1488-1524 | collecting fails exactly if two values are pending for the item |
| `RecordedItems.CollectedLeaves` | src/request.cpp:1488-1524 | after collecting exactly the values of other items are pending |
| `RecordedPlaces.StackIsOpenElements` | src/request.cpp:1282-1352 | on every run the scope stack holds the events at which the open elements began, and the counter is the number of events |
| `RecordedPlaces.RecordsArePlaced` | src/request.cpp:1388-1399 | every object, call and result is recorded from the beginning of the innermost open element up to an event, at its depth; calls and results are those triggered, with the group of their definition |
| `RecordedPlaces.MapsAreInOrder` | src/request.cpp:899-946 | the map of an item is ordered by the beginning, then longer scopes first, then values before structures |
| `RecordedPlaces.RootElementsAre` | src/request.cpp:1282-1303 | the root elements are the tags opened while no other element is open |
| `RecordedPlaces.RootsAreValidIff` | src/request.cpp:690-701 | a document has valid root elements exactly if it is not strict, or all of them are accepted and there is one unless none is |
| `RecordedCalls.RunCalls` | src/request.cpp:1246-1280 | on every run each event triggered is done or waits behind one that failed; each call event that is done has its call unless a competing definition was prioritised, and each done event of a reference in a result has its record |
| `RecordedCalls.AllIsRecorded` | src/request.cpp:1246-1280 | after an input without an error there are as many calls of a definition as its events were triggered, unless a competing one was prioritised, and as many records of a result |
| `RequestContext.AutomatonContext.InsertObjectRef` | src/request.cpp:1388-1391 | one entry with the current scope and tag level enters the map of the item |
| `RequestContext.AutomatonContext.CollectPending` | src/request.cpp:1481-1508 | exactly the pending values of the item become objects, in order; the others stay pending |
| `RequestContext.AutomatonContext.Collect` | src/request.cpp:1477-1525 | none pending counts as one undefined value, several are a duplicate definition |
| `RequestContext.AutomatonContext.HavePrioritizedItem` | src/request.cpp:1540-1548 | the backward scan with early exit finds a call exactly if there is one behind the last call that starts before the scope, and, before the calls are sorted, exactly if there is one at all |
| `RequestContext.AutomatonContext.SuppressOthers` | src/request.cpp:1549-1573 | the backward scan with early exit erases the competing calls behind the last call that starts before the scope; it reports exactly when a name is compared with a missing one |
| `RequestContext.AutomatonContext.GroupAssignments` | src/request.cpp:1574-1600 | giving assignments of one definition a common group changes nothing, as they have the same group already |
| `RequestContext.AutomatonContext.Prioritize` | src/request.cpp:1534-1602 | the two scans and the grouping make what the specification says, also after the request is done, and report when a missing name is compared |
| `RequestRuns.NameIsMissedIff` | src/request.cpp:1459-1464 | a missing name is compared exactly if the prioritised definition has none and was called since the scope opened, and another definition that has one was called since then too |
| `PrioritizedCalls.MissingNameIsCompared` | src/request.cpp:1459-1464 | the run of a concrete document that comes to this |
| `RequestRuns.ScannedIsPrioritized` | src/request.cpp:1540-1573 | where the calls of the scope are a tail of the list, the scan is a filter over the whole list |
| `RequestContext.AutomatonContext.ProcessOne` | src/request.cpp:1466-1668 | one triggered event has the effect of the specification, errors included; what that keeps and under which item is stated on runs by RecordedItems, RecordedPlaces and RecordedCalls |
| `RequestContext.AutomatonContext.DrainStack` | src/request.cpp:1265-1279 | the stack of one type is emptied from its top until an event fails |
| `RequestContext.AutomatonContext.ProcessTriggered` | src/request.cpp:1246-1280 | the events of one input are put on the stacks of their types and processed type by type |
| `RequestContext.AutomatonContext.ProcessOpenTag` | src/request.cpp:1282-1303 | the opening of a scope refines the specification; an empty root element is an error |
| `RequestContext.AutomatonContext.ProcessInner` | src/request.cpp:1305-1338 | attribute names, attribute values and content refine the specification |
| `RequestContext.AutomatonContext.ProcessCloseTag` | src/request.cpp:1340-1351 | the closing of a scope refines the specification; the scope is left only on success |
| `RequestContext.AutomatonContext.Done` | src/request.cpp:1353-1371 | calls are sorted, and the request is done exactly if its root elements are expected ones |
| `RequestContext.DoneKeeps` | src/request.cpp:1353-1371 | sorting the calls keeps the invariant of the recorded scopes |
| `CallGroups.GroupIdsFollowDefinitionOrder` | src/request.cpp:580-610 | whatever the ids are: the numbers of the groups keep the order of definition, equal exactly within a group, if and only if every group is opened for the last time before all later calls outside of it and before the last opening of every group with a later call, where an id that is not shifted behind the calls stands for a place itself |
| `CallGroups.LastOpeningsIff` | src/request.cpp:580-610 | for ids that are not negative, in terms of the map of the last openings: the order is kept exactly if these are in order |
| `CallGroups.OrderIsContiguous` | src/request.cpp:580-610 | where the order is kept, no call outside of a group lies between two of its calls |
| `CallGroups.ContiguousIff` | src/request.cpp:580-610 | where no group is opened in vain at last, this is all that is needed |
| `CallGroups.OpenedOnceInOrder` | src/request.cpp:589-610 | groups opened at most once are in order |
| `CallGroups.OpenedAgainInOrder` | src/request.cpp:589-610 | concrete inputs: a group opened again and a negative id that keep the order, an opening in vain that breaks it |
| `CallGroups.NegativeGroupIdBreaksOrder` | src/request.cpp:580-610 | a concrete input with a negative id, whose calls count as calls of the first definition |
| `CallGroups.ReopenedGroupBreaksOrder` | src/request.cpp:589-599 | a group opened again breaks that order: a concrete input |
| `CallGroups.AutomatonDescription.DoOpenGroup` | src/request.cpp:589-599 | opening a group refines the specification; an open group is an error |
| `CallGroups.AutomatonDescription.DoCloseGroup` | src/request.cpp:601-610 | closing refines the specification; it is an error without an open group |
| `CallGroups.AutomatonDescription.DoAddCall` | src/request.cpp:254-315 | a call gets the open group or its own index |
| `CallGroups.AutomatonDescription.Done` | src/request.cpp:702-727 | every virtual id is rewritten to the number of calls at the last opening of its group |
| `CallGroups.SortCallsSorts` | src/request.cpp:1028-1034 | sorting orders by group, position and definition, and keeps the calls |
| `CallGroups.CallsRunGroupByGroup` | src/request.cpp:1353-1371 | where the groups are opened in order, calls run group by group in definition order, and by document position within a group |
| `CallGroups.CallsRunOutOfOrder` | src/request.cpp:1353-1371 | where they are not, there are two calls that run in the wrong order |
| `RequestParser.ItemsAreBracketed` | src/requestParser_json.cpp:296-389 | the items of every JSON tree are well bracketed |
| `RequestParser.JsonItems.Add` | src/requestParser_json.cpp:296-389 | the walk succeeds exactly for accepted trees and appends exactly their items |
| `RequestParser.JsonItems.AddMembers` | src/requestParser_json.cpp:330-343 | the members of an object are appended one after the other |
| `RequestParser.JsonItems.AddElements` | src/requestParser_json.cpp:344-386 | the elements of an array are appended, each in the tag of the array or in a numbered one |
| `RequestParser.JsonItems.AddValue` | src/requestParser_json.cpp:269-294 | a value becomes an attribute, content or an element, as its name says |
| `JsonDocuments.ItemsMean` | src/requestParser_json.cpp:269-389 | the items of every JSON tree can be read, and are its names and values: attributes, texts and nested elements |
| `JsonDocuments.ElementTag` | src/requestParser_json.cpp:344-363 | each element of an array is an element with the name of the array, or with a tag that reads as its number |
| `JsonDocuments.AcceptedIff` | src/requestParser_json.cpp:296-389 | the items are made exactly if all numbers have a text, all nodes a known type, and arrays and objects are nested at most 200 deep |
| `JsonDocuments.InputOfItem` | src/requestParser.c:242-291 | the event fed for an item is of its kind and shows its text to what it triggers |
| `RequestParser.FedOneMore` | src/requestParser.c:242-291 | a successful event keeps the scope stack in step with the bracketing level |
| `RequestParser.FeedItems` | src/requestParser.c:242-291 | the scope stack is never empty when an event is fed; feeding succeeds exactly if no event fails |
| `RequestParser.FeedRequest` | src/requestParser.c:242-300 | after the final close the stack is empty and the state is that of the whole run; succeeds exactly if no event fails and the root elements are valid |
| `RequestParser.FinishedMapsAreValid` | src/request.cpp:899-946 | after every run the resolver finds valid maps |
| `RequestParser.RunJsonRequest` | src/requestParser.c:242-300 | from document to resolver: succeeds exactly for accepted documents without failing event and with valid root elements |
| `Serialization.NodeStore.TakeChunk` | src/serialization.c:26-40 | the head of the free list is reused before a new chunk is allocated |
| `Serialization.NodeStore.LinkChunk` | src/serialization.c:41-43 | the chunk follows the last one in use; the chain stays without cycles |
| `Serialization.NodeStore.DropTail` | src/serialization.c:170-187 | the chunks behind a chunk in use get free, and those before it stay in use |
| `Serialization.NodeStore.CutTail` | src/serialization.c:178-187 | exactly the chunks behind a chunk in use are cut off |
| `Serialization.NodeStore.SnapshotsBefore` | src/serialization.c:167-188 | no position up to the one rolled back to is in a chunk behind it |
| `Serialization.NodeStore.PushNode` | src/serialization.c:24-45 | every push appends one node to the abstract sequence and keeps all end positions good |
| `Serialization.NodeStore.End` | src/serialization.c:286-292 | the end position stands for the contents at this moment |
| `Serialization.NodeStore.ReleaseTail` | src/serialization.c:167-188 | rolling back restores exactly the contents at the position; earlier positions stay good and no chunk gets lost |
| `Serialization.NodeStore.FreeTail` | src/serialization.c:178-187 | the chunks behind the position become the free list |
| `Serialization.NodeStore.AppendTail` | src/serialization.c:173-187 | the chunks behind the position are linked to the end of the free list |
| `Serialization.NodeStore.LastFree` | src/serialization.c:175-176 | the search for the end of the free list terminates |
| `Serialization.NodeStore.ChunkIsPrefix` | src/serialization.c:24-45 | what the chunks up to one hold is the beginning of the contents |
| `Serialization.NodeStore.NumbersAreUnique` | src/serialization.c:24-45 | chunks in use are told apart by their place: the chain has no cycle |
| `Serialization.NodeStore.TailIsBehind` | src/serialization.c:167-188 | the chunks behind a position hold nothing of what comes before it |
| `Serialization.NodeStore.NoChunkIsLost` | src/serialization.c:24-45 | every chunk ever allocated is on the chain in use or else on the free list |
| `Serialization.SerializationIter.Skip` | src/serialization.c:294-317 | the iterator steps through the abstract sequence across chunks and stays at its end |
| `Serialization.ReadAll` | src/serialization.c:253-317 | iterating from the start gives the contents |
| `SerializationTrees.ParseElemsNodes` | src/serialization.cpp:521-638 | nodes written for elements are read back to the same elements, whatever follows |
| `SerializationTrees.MeaningOfElems` | src/serialization.cpp:521-638 | writing and reading are inverse on whole serializations |
| `Flatten.FlattenedIsWrittenMeaning` | src/serialization.c:207-236 | the flattened nodes are the meaning of the serialization written without embedding |
| `Flatten.FlatteningKeepsMeaning` | src/serialization.c:207-251 | flattening keeps the meaning of every well-formed serialization |
| `Flatten.FlattenedHasNoneEmbedded` | src/serialization.c:207-236 | nothing embedded is left, at any depth |
| `Flatten.FlatteningIsIdempotent` | src/serialization.c:238-251 | flattening again changes nothing |
| `Flatten.HasInnerSerialization` | src/serialization.c:190-205 | tells exactly whether a serialization is embedded |
| `Flatten.FlattenInto` | src/serialization.c:207-236 | appends exactly the flattened nodes |
| `Flatten.FlattenNode` | src/serialization.c:216-232 | appends a node, or what is embedded between an open and a close |
| `Flatten.FlattenSerialization` | src/serialization.c:238-251 | the result holds the flattened nodes; without embedding the serialization is left alone |
| `SkipStructure.SkipStructureOpen` | src/serialization.c:351-375 | stops behind the close that matches, or at the end with a failure |
| `SkipStructure.Skip` | src/serialization.c:377-410 | skips an optional name and a value or structure, and fails exactly where there is none |
| `SkipStructure.SkipLandsBehindElem` | src/serialization.c:351-410 | from the start of a well-formed element it lands exactly one behind its end |
| `SkipStructure.SkipStopsAtFirstBalance` | src/serialization.c:351-375 | on any nodes it stops at the first place where everything opened is closed again |
| `KeyMaps.StrLessTotal` | src/serialization.cpp:572-584 | the order of the names is total and antisymmetric |
| `KeyMaps.StrLessIff` | src/serialization.cpp:572-584 | a name comes first exactly if behind equal characters it ends or has the smaller one |
| `Decimals.ReadWritten` | src/valueVariant.cpp:407-426 | the digits of a number have no zero in front and read as the number in base ten |
| `Decimals.WrittenRead` | src/valueVariant.cpp:407-426 | digits without a zero in front are those of the number they read as |
| `CanonicalTrees.KeyIsSpelled` | src/serialization.cpp:524-549 | the string of a name is the text itself, the text that reads as the number, or 1 and 0 for truth values; nothing else has one |
| `CanonicalTrees.IntegerKeys` | src/serialization.cpp:524-549 | two integers have the same string exactly if they are the same number |
| `CanonicalTrees.UniquelyNamedIff` | src/serialization.cpp:524-549 | the names of a list count as different exactly if no two are spelled alike; for integers, exactly if the numbers are different |
| `CanonicalTrees.SameIsSpelled` | src/serialization.cpp:524-549 | a member that means the same has the text of the name |
| `KeyMaps.PutSorted` | src/serialization.cpp:543 | entering a name keeps the map sorted |
| `KeyMaps.PutIsUpdate` | src/serialization.cpp:543 | entering a name is a map update; the last one counts |
| `KeyMaps.SortedIsUnique` | src/serialization.cpp:580-596 | a sorted map is determined by its entries |
| `KeyMaps.PutAlike` | src/serialization.cpp:543 | where an entry goes depends on the names only |
| `CanonicalTrees.CanonMeansTheSame` | src/serialization.cpp:521-638 | the canonical form of a tree with different names is sorted at every depth and means the same |
| `CanonicalTrees.SortedIsCanonical` | src/serialization.cpp:521-638 | a sorted tree is its own canonical form |
| `CanonicalTrees.CanonIsIdempotent` | src/serialization.cpp:521-638 | making the canonical form again changes nothing |
| `CanonicalTrees.CanonDecidesSame` | src/serialization.cpp:521-638 | two trees have the same canonical form exactly if they differ only in the order of members |
| `CanonicalTrees.SameIsTransitive` | src/serialization.cpp:521-638 | having the same meaning is transitive |
| `CanonicalTrees.SameIsSymmetric` | src/serialization.cpp:521-638 | having the same meaning is symmetric |
| `CanonicalTrees.OnlyTheLastCounts` | src/serialization.cpp:572-584 | of members with the same name the last one counts, whatever the others hold |
| `CanonicalCopy.AddNameMap` | src/serialization.cpp:524-549 | the text that spells the name and the exact range of its value are entered; fails exactly for names that are not strings, numbers or truth values |
| `CanonicalCopy.ReadMembers` | src/serialization.cpp:572-579 | the members up to the end of the list are entered with the ranges of their values |
| `CanonicalCopy.WriteMembers` | src/serialization.cpp:580-596 | the members are written in the order of their names with their values in canonical form |
| `CanonicalCopy.CopyMembers` | src/serialization.cpp:570-608 | a named list is copied sorted, with its close; unnamed elements behind named ones are an error |
| `CanonicalCopy.CopyNames` | src/serialization.cpp:570-608 | in the middle of a copy, the named list at hand is replaced by its sorted copy and the rest to expect stays the same; it fails only if there is no canonical form |
| `CanonicalCopy.CopyDeterministic` | src/serialization.cpp:551-619 | for well-formed input it succeeds exactly if there is a canonical form and appends exactly its nodes; names are told apart as they are spelled, see UniquelyNamedIff |
| `CanonicalCopy.CopySerialization` | src/serialization.cpp:621-638 | the copy of a whole serialization |
| `CanonicalCopy.CopiesAreEqualIfSame` | src/serialization.cpp:521-638 | two copies consist of the same nodes exactly if the originals differ only in member order |
| `CanonicalCopy.CopyMeansTheSame` | src/serialization.cpp:521-638 | a copy is sorted, means the same as the original and is copied to itself |
| `LuaTables.SerializeKey` | lua/libpapuga_lua_dev.c:319-355 | a key is pushed as a name; other keys are an error |
| `LuaTables.SerializeValue` | lua/libpapuga_lua_dev.c:359-418 | a value is pushed, a table between open and close; the error state is set exactly for what cannot be written |
| `LuaTables.SerializeMap` | lua/libpapuga_lua_dev.c:478-500 | the fields are pushed as names and values up to the first that cannot be written |
| `LuaTables.SerializeElement` | lua/libpapuga_lua_dev.c:535-541 | the next value of an array is pushed; failure shows in the error state only |
| `LuaTables.RestartAsMap` | lua/libpapuga_lua_dev.c:542-548 | after the roll-back the result is the same as writing a map directly |
| `LuaTables.SerializeNode` | lua/libpapuga_lua_dev.c:517-553 | a table becomes an array if its keys count from 1, otherwise exactly the map; earlier end positions stay good |
| `LuaTables.SerializeRoot` | lua/libpapuga_lua_dev.c:555-565 | success is reported exactly for tables without anything that cannot be written |
| `LuaTables.NotDone` | lua/libpapuga_lua_dev.c:359-553 | what is not reported as done contains something that cannot be written |
| `LuaTables.DeserializeNode` | lua/libpapuga_lua_dev.c:822-915 | the loop over the nodes builds the table the specification reads; ReadIsMeaning says which one that is for well-formed nodes, embedded ones included |
| `LuaTables.DeserializeValue` | lua/libpapuga_lua_dev.c:597-660 | a value or an embedded serialization is read, others fail; FlatteningKeepsTable says that what is embedded is read as if it were written out |
| `LuaTables.DeserializeRoot` | lua/libpapuga_lua_dev.c:917-937 | all nodes have to be read |
| `LuaTables.SetField` | lua/libpapuga_lua_dev.c:849-906 | the name read before or else the next index becomes the key |
| `LuaTables.ReadTableBack` | lua/libpapuga_lua_dev.c:822-937 | reading the nodes of a table gives back the table with the order of its fields, at every depth |
| `LuaTables.ReadArrayBack` | lua/libpapuga_lua_dev.c:822-937 | an array gets its indices back |
| `LuaTables.ReadMapBack` | lua/libpapuga_lua_dev.c:822-937 | a map gets its keys back |
| `LuaTables.TablesRoundTrip` | lua/libpapuga_lua_dev.c:478-937 | a table is read back exactly if everything in it can be written |
| `LuaTables.ReadIsSupported` | lua/libpapuga_lua_dev.c:822-937 | whatever is read can be written |
| `LuaTables.WriteAndReadBack` | lua/libpapuga_lua_dev.c:478-937 | writing and reading back returns the same table, or the writer reports a failure |
| `TableMeaning.RawSetIsUpdate` | lua/libpapuga_lua_dev.c:861-899 | setting a field changes that one only, and no value removes it |
| `TableMeaning.FilledFields` | lua/libpapuga_lua_dev.c:822-915 | a table has exactly the fields given by the elements: the key is the name or else the position among the elements without name, the last element with a key counts, and nothing removes the field |
| `TableMeaning.ReadIsMeaning` | lua/libpapuga_lua_dev.c:822-937 | reading well-formed nodes succeeds exactly if there is no structure with an id and no name that is nothing, and then gives the table of their elements, at every depth |
| `TableMeaning.FlatteningKeepsTable` | lua/libpapuga_lua_dev.c:665-668 | with all embedded serializations replaced by what they contain, the same table is read, or reading fails as before, at every depth |
| `TableMeaning.EndCloses` | lua/libpapuga_lua_dev.c:822-915 | a close that is missing at the end is not missed |
| `TableMeaning.ValueIsTree` | lua/libpapuga_lua_dev.c:359-418 | the tree written for a value stands for it |
| `TableMeaning.WrittenMeaning` | lua/libpapuga_lua_dev.c:478-553 | every field is written as one element in the same order: without names exactly if the keys are the numbers from one on, otherwise with the key as name |
| `Allocator.PowersOfTwo` | src/allocator.c:184-187 | the bit test admits exactly the alignments up to the maximum |
| `Allocator.MaskIsRemainder` | src/allocator.c:193-197 | masking any number with an alignment less one is the remainder |
| `Allocator.PointerAlignIncr` | src/allocator.c:193-197 | the increment, computed with masks from the address cut to 32 bits, is the distance to the next aligned address |
| `Allocator.IncrIsSmallest` | src/allocator.c:193-197 | the increment is the smallest that reaches an aligned place |
| `Allocator.RoomIsExact` | src/allocator.c:215-222 | the 32-bit test for room is right exactly if the sum fits in 32 bits or its remainder does not pass |
| `Allocator.RoomOverflows` | src/allocator.c:215-222 | a concrete request for which it is wrong |
| `Allocator.DoublingEnds` | src/allocator.c:230-234 | doubling reaches what is needed exactly up to 2 GB |
| `Allocator.RequestOutcome` | src/allocator.c:199-241 | for every size: a request ends with a block inside of its array if and only if it fits in the newest one or needs at most 2 GB with its alignment |
| `Allocator.LargeRequests` | src/allocator.c:199-241 | concrete requests: one gets a block that does not fit in its array, one does not end |
| `Allocator.CutKeeps` | src/allocator.c:215-222 | a new block is aligned, within its array and disjoint from all others |
| `Allocator.Allocator.BlocksAreSeparate` | src/allocator.c:199-241 | two blocks handed out have no byte in common; each begins at a multiple of its alignment and lies in an area of the memory |
| `Allocator.EndsLast` | src/allocator.c:264-273 | only the last block of the newest array ends where its used part ends |
| `Allocator.ShrinkKeeps` | src/allocator.c:264-273 | giving back the end of the last block keeps all blocks disjoint and in bounds |
| `Allocator.MoveKeeps` | src/allocator.c:223-228 | moving the newest array to the chain keeps every array once |
| `Allocator.NewRootKeeps` | src/allocator.c:230-240 | a new array is none of those in use |
| `Allocator.AddKeeps` | src/allocator.c:243-254 | memory taken over is owned once |
| `Allocator.Allocator.constructor` | include/papuga/allocator.h:32 | memory of the caller is used but not owned |
| `Allocator.Allocator.Alloc` | src/allocator.c:199-241 | for exactly the requests that end with a block inside of its array: blocks are aligned, in bounds and pairwise disjoint, and lie where the outcome says; the newest array is used if the block fits |
| `Allocator.Allocator.Cut` | src/allocator.c:215-222 | a block is cut behind the used part of the newest array |
| `Allocator.Allocator.TakeArray` | src/allocator.c:230-237 | the new array has room for the block and its alignment |
| `Allocator.Allocator.AddFreeMem` | src/allocator.c:243-254 | the memory is freed with the allocator |
| `Allocator.Allocator.ShrinkLastAlloc` | src/allocator.c:264-273 | succeeds exactly for the last block; then only its end is given back |
| `Allocator.Allocator.FreeChain` | src/allocator.c:166-182 | every node of the chain is freed once and every own array |
| `Allocator.Allocator.Destroy` | src/allocator.c:154-182 | exactly the own arrays are freed, each once, and never memory of the caller |
| `SegmentedStack.Stack.Push` | src/stack.c:50-68 | appends to the abstract sequence; fails only if a needed node cannot be allocated |
| `SegmentedStack.Stack.AddNode` | src/stack.c:53-62 | only a full node gets a node on top |
| `SegmentedStack.Stack.Pop` | src/stack.c:70-95 | removes the last element across node boundaries; fails exactly on the empty stack |
| `SegmentedStack.Stack.DropTop` | src/stack.c:75-87 | an empty top node is freed and nothing is lost |
| `SegmentedStack.Stack.NodeIsPrefix` | src/stack.c:50-95 | the elements up to a node are the beginning of the contents |
| `SegmentedStack.Stack.TopN` | src/stack.c:113-137 | for every number: it succeeds exactly for those that end at a node, the elements are copied in push order, and for any other number those left over are written before the result |
| `SegmentedStack.Stack.CopyNodes` | src/stack.c:123-135 | the count ends at zero exactly for numbers of elements in some uppermost nodes, and otherwise below it by all elements left |
| `SegmentedStack.Stack.WithinTopNode` | src/stack.c:123-135 | a number that ends within the top node does not end at a node |
| `SegmentedStack.UppermostOfTwo` | src/stack.c:123-135 | a concrete input: one of two elements in one node |
| `SchemaExpansion.BitIterator.Skip` | src/schema.cpp:83-87 | the next bit is higher and no other bit is lost |
| `SchemaExpansion.BitsOf` | src/schema.cpp:60-93 | iterating gives every bit once in ascending order |
| `SchemaExpansion.AddAllMeans` | src/schema.cpp:638-654 | adding succeeds exactly if equal keys come with equal operations; then the map says what was added, with all masks joined |
| `SchemaExpansion.AddKeepsMeaning` | src/schema.cpp:638-654 | one more addition keeps that meaning or contradicts an earlier one |
| `SchemaExpansion.ExpandEnters` | src/schema.cpp:656-812 | no schema is entered again on the way down: what is added is selected by the current or by a schema not visited |
| `SchemaExpansion.DeeperHasLessFree` | src/schema.cpp:771-785 | every nested expansion visits at least one more of 64 schemas; this is what makes it terminate |
| `SchemaReferences.ExpansionIsComplete` | src/schema.cpp:656-812 | without an error exactly the schemas that can be reached by references are expanded, each with all its nodes, and every node with the operations of its kind |
| `SchemaReferences.ExpandReaches` | src/schema.cpp:656-785 | what is expanded is closed under references, up to what is expanded further up |
| `SchemaReferences.WayStaysInside` | src/schema.cpp:771-785 | a set that is closed under references holds everything that can be reached |
| `SchemaReferences.ExpandsOnlyReachable` | src/schema.cpp:656-812 | operations are selected by the schema at hand or by one that can be reached from its nodes |
| `SchemaReferences.AtomOperations` | src/schema.cpp:665-750 | an attribute has the operation of its type; an atomic element has its name operation, and that for values of its type behind it |
| `SchemaReferences.StructureOperations` | src/schema.cpp:751-809 | a structure has what opens and what closes it, of the same kind: an array kind exactly for an array, a named kind with the schemas referred to exactly for a reference |
| `SchemaOperations.OperationHasNode` | src/schema.cpp:656-812 | every operation added is one of a node of the list or of a schema, at its expression, and what comes with it is added too |
| `SchemaOperations.CompiledIsPaired` | src/schema.cpp:656-812 | in the map of a schema compiled without an error, what opens has what closes it, of the same kind and selected in the same schemas, and what names an element has what reads its content; none is without the other |
| `CompiledRequests.PlainKey` | src/schema.cpp:656-812 | an expression that matches the path of an element has the name or the opening operation, one of an attribute that of an attribute |
| `CompiledRequests.ItemsOf` | src/schema.cpp:1309-1541 | what a compiled schema finds for a document that is not refused are the events of well-formed items: what closes is that of what opened, and equal elements next to each other have the same operations |
| `CompiledRequests.CompiledIsBalanced` | src/schema.cpp:1309-1541 | with a compiled schema the serializer refuses a document, or leaves both stacks empty and its output balanced |
| `SchemaPaths.MatchedIff` | src/schema.cpp:656-812 | an expression selected by a schema matches a path of elements if and only if the path follows the references in a way that enters no schema twice, with any elements in front of a reference |
| `SchemaPaths.MapMatches` | src/schema.cpp:638-654 | the same for the masks in the map of operations |
| `SchemaPaths.DescendRefs` | src/schema.cpp:771-785 | where a path enters a schema again by the same name, the double slash makes up for what was not expanded again |
| `SchemaPaths.EveryPathIsMatched` | src/schema.cpp:656-812 | if elements that refer to the same schemas have the same name, every path that leads to a node is matched, however often it follows references |
| `SchemaPaths.OtherNameIsNotMatched` | src/schema.cpp:771-785 | a concrete schema that refers to itself by another name, and a path of its documents that no expression matches |
| `SchemaExpansion.SelectExpressionMap.AddOperation` | src/schema.cpp:638-654 | refines one addition, a contradiction is a duplicate definition |
| `SchemaExpansion.SelectExpressionMap.BuildSelectExpressionMap` | src/schema.cpp:656-812 | terminates on every set of schemas, nests at most 64 deep and makes exactly the additions of the expansion; OperationHasNode and CompiledIsPaired say which operations these are |
| `SchemaExpansion.SelectExpressionMap.AddRefs` | src/schema.cpp:771-785 | the schemas referred to and not visited are expanded in ascending order |
| `SchemaExpansion.SelectExpressionMap.AddSchema` | src/schema.cpp:774-785 | a schema referred to is expanded with its structure under the path of the reference; one without is an error |
| `SchemaExpansion.SelectExpressionMap.AddNode` | src/schema.cpp:665-810 | one node makes exactly the additions of its kind, see AtomOperations and StructureOperations |
| `SchemaExpansion.BuildMap` | src/schema.cpp:836-858 | a contradiction is reported exactly if there is one; otherwise the map represents all additions, which go in pairs as CompiledIsPaired says |
| `StructureArrays.RunIsMaximal` | src/schema.cpp:1440-1462 | a run of equal structures cannot be extended |
| `StructureArrays.AcceptedEvents` | src/schema.cpp:1515-1541 | in a request that is not refused no element has more than one operation, and every opening element, attribute value and content that is not blank has one |
| `StructureArrays.AcceptedIsSelected` | src/schema.cpp:1325-1338 | an accepted item is selected everywhere or in a schema of the innermost named structure; for further elements of a named array that is the array itself |
| `StructureArrays.SingleElems` | src/schema.cpp:1362-1512 | attributes, atomic elements with one content and structures are one named element each, in their order |
| `StructureArrays.ArrayIsOneElem` | src/schema.cpp:1427-1512 | array structures of the same name are one named element with one unnamed element for each |
| `StructureArrays.ContinuesIff` | src/schema.cpp:1451 | the next element continues the array exactly if it is one more of the run |
| `StructureArrays.RunList` | src/schema.cpp:1309-1541 | a list of items is accepted exactly if all are selected; then its nodes are written and both stacks are as before |
| `StructureArrays.RunArray` | src/schema.cpp:1427-1512 | a run becomes one named array with exactly as many elements |
| `StructureArrays.RunReopened` | src/schema.cpp:1427-1512 | the second and further elements are opened without a push |
| `StructureArrays.OutputMeaning` | src/schema.cpp:1362-1364 | what is written can be read exactly if no atomic element is without content; then it means the elements, arrays merged |
| `StructureArrays.OutputIsBalanced` | src/schema.cpp:1309-1541 | what is written is balanced, with or without content in atomic elements |
| `StructureArrays.CompleteNodes` | src/schema.cpp:1309-1541 | with content in all atomic elements the nodes are those of the elements |
| `StructureArrays.EmptyElementIsNotRead` | src/schema.cpp:1362-1364 | a concrete request that is accepted and whose output cannot be read |
| `StructureArrays.RequestResult` | src/schema.cpp:1309-1541 | a whole request is refused or leaves both stacks empty and balanced nodes, which mean its elements exactly if no atomic element is without content |
| `StructureArrays.SecondElementIsNotSelected` | src/schema.cpp:1325-1338 | two whole requests: one of two equal elements is accepted, both together are refused |
| `StructureArrays.RequestSerializer.OpenArray` | src/schema.cpp:1427-1440 | an array is opened unless the element was consumed by the one before |
| `StructureArrays.RequestSerializer.CloseArray` | src/schema.cpp:1442-1466 | the array goes on exactly if the next element equals the one that opened it |
| `StructureArrays.RequestSerializer.ApplyOp` | src/schema.cpp:1325-1512 | the selection is checked and the operation has the effect of the specification |
| `StructureArrays.RequestSerializer.SerializeRequest` | src/schema.cpp:1309-1541 | the loop with stacks of positions refines the specification on the elements themselves |
| `StructureArrays.RequestSerializer.SerializeTree` | src/schema.cpp:1309-1541 | a request that is a tree is refused, exactly as its items are selected, or comes out balanced, and as its elements exactly if no atomic element is without content |
| `SchemaTree.AssignScope` | src/schemaDescription.cpp:180-190 | the nodes are numbered in document order |
| `SchemaTree.ScopeWithin` | src/schemaDescription.cpp:180-190 | the scope of a descendant lies properly in that of the node |
| `SchemaTree.InsideMeansDescendant` | src/schemaDescription.cpp:180-190 | one scope lies inside another exactly if its node is the other or below it |
| `SchemaTree.FindRoot` | src/schemaDescription.cpp:792-793 | finds a lifted node exactly if there is one of the name |
| `SchemaTree.DeclareDeepNodesAsGlobals` | src/schemaDescription.cpp:779-835 | terminates and refines the specification, ambiguous references included |
| `SchemaTree.DeclareResult` | src/schemaDescription.cpp:779-835 | without ambiguity the tree loses its deep nodes below the root and the first one of every name is lifted, innermost first; what is below a deep node met again is in neither |
| `SchemaTree.StripKeeps` | src/schemaDescription.cpp:779-835 | the children that are no deep nodes stay in their order; a node that had deep ones only is no structure anymore, and nothing else changes |
| `SchemaTree.RemainingHasNoDeep` | src/schemaDescription.cpp:779-835 | no deep node is left in the tree |
| `SchemaTree.LiftedHasNoDeep` | src/schemaDescription.cpp:779-835 | no deep node is left among the lifted ones |
| `DeepNodes.PlacesAreScopes` | src/schemaDescription.cpp:180-190 | the places of nodes and of those below them are what the assigned scopes say |
| `DeepNodes.NotAmbiguousIff` | src/schemaDescription.cpp:779-835 | the references are not ambiguous exactly if every deep node met again has the id of the first one of its name, and that one is neither a child of the root nor above it |
| `DeepNodes.RepeatedDeepNode` | src/schemaDescription.cpp:788-812 | inputs that are ambiguous: a deep child of the root met again deeper, and a deep node below one of its name |
| `DeepNodes.LiftingKeeps` | src/schemaDescription.cpp:779-835 | exactly the nodes met but for the deep ones met again come out, in the tree or lifted, each once; those met again are lost with all below them |
| `DeepNodes.NothingIsLost` | src/schemaDescription.cpp:779-835 | as many nodes come out as went in exactly if no two deep nodes have the same name |
| `DeepNodes.SecondDeepNodeIsLost` | src/schemaDescription.cpp:788-806 | a concrete input that passes the final check: of /b/u, /b//a/x, /c/w and /c//a/y nothing is left of y |
| `DeepNodes.LiftDeepNodes` | src/schemaDescription.cpp:920-933 | succeeds exactly if every deep node met again is settled; then the tree has no deep node, and exactly the nodes that are kept, each once |
| `UriEncode.IsAlnum` | src/uriEncode.cpp:15-26 | the bit test for letters with the digits admits exactly letters and digits |
| `UriEncode.EncodedLength` | src/uriEncode.cpp:37-61 | at most three output bytes for one input byte |
| `UriEncode.PrintCharEncoded` | src/uriEncode.cpp:37-61 | writes the code of a character if it fits and nothing otherwise |
| `UriEncode.CharTable.constructor` | src/uriEncode.cpp:68-81 | the table maps every character as the classes say |
| `UriEncode.CharTable.Encode` | src/uriEncode.cpp:83-94 | for every buffer: succeeds exactly if the buffer has what is needed, and writes the encoded string with a terminating zero; a place outside is written exactly for empty input into an empty buffer |
| `UriEncode.EncodingIsReversible` | src/uriEncode.cpp:37-135 | decoding undoes encoding of all strings exactly if the percent sign, and for form data the plus sign, is not preserved |
| `UriEncode.OutputIsSafe` | src/uriEncode.cpp:37-61 | every character of the output is a letter, a digit, one of four unreserved marks, a plus sign in form data, preserved, or the percent sign of an escape |
| `UriEncode.UnreservedIsCopied` | src/uriEncode.cpp:37-61 | letters, digits and the four marks are copied |
| `MarkupEncoding.OutputContext.AppendEncoded` | src/valueVariant_markup_base.cpp:75-165 | the loops append exactly the string with its characters replaced |
| `MarkupEncoding.EntityIsFound` | src/valueVariant_markup_base.cpp:84-112 | different characters have different replacements and none begins another |
| `MarkupEncoding.DecodeEncoded` | src/valueVariant_markup_base.cpp:75-165 | decoding the predefined entities or the escapes undoes the encoding of every string |
| `MarkupEncoding.OutputIsClean` | src/valueVariant_markup_base.cpp:75-165 | the output for markup has no angle brackets and no quotes, and an ampersand only where one of the five entities begins; that for program text is plain characters and escapes |
| `MarkupEncoding.PlainIsCopied` | src/valueVariant_markup_base.cpp:75-165 | text without any of these characters is copied |

## Left out

- CanonicalCopy.CopyDeterministic: requires a well-formed serialization, as do CopySerialization and the methods below it; on others, such as two names in a row, the loop of the source can step over the end of its range.
- CanonicalCopy.AddNameMap: requires a well-formed element, so the errors for a name without a value are not modelled.
- CanonicalCopy.ReadMembers: requires well-formed elements.
- CanonicalCopy.CopyMembers: requires well-formed elements.
- CanonicalCopy.CopyNames: requires well-formed elements.
- CanonicalCopy.CopySerialization: requires a well-formed serialization.
- LuaTables.SerializeNode: numbers are integers that a double holds exactly; floating-point keys and values, numeral strings as keys, host objects and iterators are not modelled.
- LuaTables.DeserializeNode: structures with an id, whose members are named by the interface description, are not read.
- ItemResolver.RequestIterator.ResolveArray: the same-scope fallback for undefined values and interleaved resolution of one item id, which both move the shared cursor, are not modelled.
- ItemResolver.RequestIterator.ResolveSingle: error reporting and the value built for an object are not modelled, only which object is taken.
- RequestContext.AutomatonContext.Prioritize: where a result name is compared with a missing one, the method reports it and goes on as if they were different; what the source does there is not defined.
- RequestContext.AutomatonContext.SuppressOthers: a name compared with a missing one counts as different, like in Prioritize.
- RequestRuns.MapsAreValid: for up to 2^31-1 events; beyond, the counter of the source overflows.
- RequestParser.FeedItems: requires a bracketed list, which every JSON document gives; otherwise the source takes a scope from an empty stack.
- RequestParser.FeedRequest: requires a bracketed list, like FeedItems.
- CallGroups.AutomatonDescription.DoOpenGroup: group ids above 2^31-1-0x8001, for which the shifted id overflows, are not modelled.
- RequestParser.RunJsonRequest: the tokens of the JSON parser and the path automaton are inputs of the model.
- Allocator.Allocator.Alloc: what the C library returns is a parameter; its areas are assumed not to touch each other. Freed chain nodes are listed in the result and not overwritten.
- SegmentedStack.Stack.TopN: the unsigned count is an integer that goes below zero where the one of the source wraps; writes outside of the result are listed and not made.
- LuaTables.SerializeKey: floating-point keys are not modelled.
- LuaTables.SerializeValue: floating-point values, nil and host objects are not modelled.
- LuaTables.DeserializeValue: floating-point values, host objects and iterators are not modelled.
- StructureArrays.RequestSerializer.ApplyOp: atomic arrays and conversions to numbers are not modelled.
- StructureArrays.RequestSerializer.SerializeRequest: values are strings; conversions to numbers, atomic arrays and the position of errors are not modelled. Of several operations for one element the source executes some before it fails; the model fails at once.
- Allocator.Allocator.constructor: buffers of at most 2 GB, the limit of the sizes of blocks.
- Allocator.Allocator.TakeArray: a need of at most 2 GB; for more the doubling does not end, see DoublingEnds.
- SchemaExpansion.SelectExpressionMap.BuildSelectExpressionMap: a 64-bit word is the sequence of its bits.
- CompiledRequests.CompiledIsBalanced: for schemas whose atomic types are strings and whose atomic elements are no arrays, which is what the serializer is modelled for, and for documents with nothing but text in atomic elements; what the path automaton finds is what the expressions match.
- CompiledRequests.ItemsOf: the same conditions as CompiledIsBalanced.
- CompiledRequests.PlainKey: the same schemas as CompiledIsBalanced.
- TableMeaning.ReadIsMeaning: for well-formed nodes; of others only the missing close at the end is stated, by EndCloses.
- SchemaPaths.EveryPathIsMatched: the condition on the names is sufficient; a path can also be matched through another way to the schema. For each single path MatchedIff has both directions.
- DeepNodes.LiftDeepNodes: resolving references to deep nodes, optional members and the final check of the tree are not modelled. Child vectors hold values in the source and are sequences of values here.
- MarkupEncoding.OutputContext.AppendEncoded: the two loops of the source, for markup and for program text, differ in the table of replacements only and are one method here.
- The `std::map` of the canonical copy and the multimap of scopes are sorted sequences with the insertion of the library.
- Strings are sequences of characters; encodings, zero bytes in names and number formatting other than decimal integers are not modelled.
- Failures of memory allocation, except in the allocator and the stack.
- Deep copies of nested serializations, XML array detection, XSD and JSON-schema output, documentation generators and the host language interfaces.
- Inherited contexts, logging and the building of results from result references.
