# Verified model of the Fawkes configuration store and its stateful protocols

Fawkes keeps its configuration in trees of named nodes. This project models those trees and what is built on
them, and some of the framework's other stateful protocols, and proves what a user of them relies on.

* **Configuration trees** (`YamlNode`, `ConfigTree`, `ConfigMerge`, `OverlayLaws`, `RootName`, `ConfigDoc`,
  `DocPaths`, `EmitReread`, `LeafDiff`). `YamlNode` is the class of nodes on the heap, changed in place; a ghost
  value gives its footprint and the tree it represents. Every method is proved to make of that tree what a function on tree
  values says, and the theorems speak about those functions through the *leaf map*, from path to type, text and
  items. `Paths`, `ScalarText` and `NumberText` hold the texts of paths and values.
* **The YAML configuration** (`ConfigLoad`, `LoadOrder`, `ConfigLayers`, `ConfigRuns`, `ConfigRestart`, `ConfigStart`,
  `ConfigReload`, `ConfigInputs`, `YamlConfig`). Loading over an include graph, the effective and host-specific
  tree with deferred writing over all runs, which loads start a run, what a restart makes of one, reloading, and
  inputs at which something goes wrong.
* **Values and mirrors over the network** (`NetCodec`, `ListBuffer`, `ValueMessage`, `Mirror`, `MemoryConfig`). The
  bytes of a record, of the list of records and of an answer to a single request, the two passes of the server
  for a subscriber, and the store of the client.
* **Other protocols**: subscriptions of a blackboard listener (`Listener`), aspects and threads (`Aspects`,
  `Threads`), the SQL dump (`SqlImport`), change handlers (`ChangeHandlers`) and the schema generator's closure
  (`SchemaClosure`).

`MapFacts` and `CStrings` hold general facts on maps, sequences and texts that end at a terminator.
`dafny verify dfyconfig.toml` checks everything.

## How the model is read

* A member that returns `ok`, or an `Option`, returns false or `None` where the source throws.
* `Valid(s)` says that the objects of the shape `s` form a tree; `Abs(s)` is the tree they represent. Two trees
  with disjoint `nodes` share nothing.
* The mutexes appear as the flag `locked`; every public call is one step. What a thread, an initializer or the
  database answers is a parameter, so that the theorems hold for every answer.
* Strings are sequences of characters; where bytes matter (`NetCodec`) characters are below 256.

## What the proofs brought up

Each of these is proved, with the exact condition where there is one.

* A list set in a `YamlConfiguration` is not stored: the text that the node had before, or an empty one, is written
  (`ConfigRuns.ListIsNotStored`, `ConfigRuns.ListAfterText`, `EmitReread.EmitThenReread`).
* A reload that only changes items of lists is not noticed (`ConfigReload.ReloadAdopts`,
  `ConfigReload.ListChangeIsMissed`).
* A text set over a list gets the type of the list's first item, so that the effective value and the value in the
  host tree can differ in type (`ConfigTree.SetValueLeafs`, `ConfigRuns.StepKeepsTypes`,
  `ConfigRuns.ListGivesItsType`).
* A value set over a list of another file, below one of its scalars or lists, or at or below a sequence of maps,
  makes the next start throw; set over a null, or with a key `root`, it is silently lost
  (`ConfigRestart.PutSurvives`, `ConfigRestart.PutStopsTheLoad`, with inputs in
  `ConfigRestart.SetOverListStopsTheLoad`, `ConfigRestart.SetOverNullIsLost` and
  `ConfigRestart.SetBelowSequenceStopsTheLoad`).
* Erasing a value that another file also defines holds only until the next load, and so does erasing the last
  value below a null of another file (`ConfigRestart.EraseSurvives`, `ConfigRestart.ErasedValueComesBack`).
* A host value over a null of another file is not effective after a load (`ConfigStart.LoadStartsExactly`,
  `ConfigInputs.HiddenHostValue`).
* An edit of the host file that changes no effective leaf is ignored, and overwritten by the next set
  (`ConfigReload.ReloadKeeps`, `ConfigReload.MissedEditIsOverwritten`, `ConfigInputs.MovedValueIsLost`).
* Without a host file every set reports an error but takes effect (`ConfigRuns.NoHostFile`).
* A key called `root` is lost in an overlay (`RootName.KeptExactlyIfRootless`).
* A default value that is a string is mirrored as `true`: `set_default_string` passes a `const char *` to
  `set_value`, for which the conversion from `bool` is chosen (`src/libs/config/memory.cpp:409-414`,
  `src/libs/utils/misc/string_conversions.h:38-53`; `Mirror.StoredReads`,
  `Mirror.DefaultStringIsTrue`).
* A list asked for over the network does not arrive if it has one element, holds truth values, or holds 32768 or
  more signed numbers, which arrive as zeros (`ValueMessage.NumbersArrive`).
* The list for a subscriber grows its buffer at most once for a record, so that making it throws for a first
  record of more than 2046 bytes, such as a list of 478 numbers (`ListBuffer.FirstRecordIsSmall`,
  `Mirror.SingleLeafIsSent`); and of 65536 or more leaves some never reach the client
  (`Mirror.SubscribeMirrors`).
* The type check on a repeated key looks at the top of the map, also for a key with slashes: a document with the
  only key `a/a` and a number is refused (`DocPaths.EntryThrows`, `DocPaths.OneEntry`).
* Of an empty list the client reads a value past the end of the record (`NetCodec.NumbersRoundTrip`).
* A handler is notified once for every registration with the same prefix (`ChangeHandlers.NotifiedOnce`).
* Adding a managed thread again untracks it if its own `init` fails (`Threads.AddExact`, `Threads.AddedTwice`).
* Unregistering a listener undoes pending removals (`Listener.ReregisterRestores`, `Listener.RemovalIsUndone`).
* An imported dump cuts values with a semicolon at the end of a line (`SqlImport.DumpImports`, `SqlImport.CutValue`).

## Model

| member | source | states |
|---|---|---|
| `Paths.Split` | src/libs/utils/misc/string_split.h:201-212 | splitting at slashes gives only proper keys: not empty and free of the delimiter |
| `Paths.SplitJoin` | src/libs/config/yaml_node.h:935-948 | splitting the text that enumeration builds for a path gives the path back, for every path of proper keys |
| `Paths.JoinInjective` | src/libs/config/yaml_node.h:935-948 | different paths have different texts, so a map keyed by path texts loses no leaf |
| `Paths.SortedKeys` | src/libs/config/yaml_node.h:939-940 | the iteration order of a std::map: every key once, in strictly ascending order |
| `Paths.LessMeans` | src/libs/config/yaml_node.h:939-940 | that order: a text is less than another if and only if it is a proper beginning of it or smaller at the first difference |
| `ScalarText.TypeIsFirstReader` | src/libs/config/yaml_node.h:1023-1049 | the type of a text is that of the first accessor, in the order unsigned int, int, float, bool, that can read it, and string if none can |
| `ScalarText.NatKind` | src/libs/config/yaml_node.h:164-208 | a natural number in decimal is an unsigned int below 2^63, then a float up to the largest one, and beyond that a string |
| `ScalarText.PowerKinds` | src/libs/config/yaml_node.h:186-208 | 1e38 is a float and 1e39 a string |
| `ScalarText.FirstItemKind` | src/libs/config/yaml_node.h:739-754 | a text set on a list gets the type of the first item of the list, whatever the text is, and unsigned int if the list is empty |
| `ScalarText.UintRoundTrip` | src/libs/config/yaml_node.h:164-184 | every 32-bit unsigned value, printed in decimal, reads back unchanged and has the type unsigned int |
| `ScalarText.IntRoundTrip` | src/libs/config/yaml_node.h:186-208 | every 32-bit signed value reads back unchanged; its type is unsigned int exactly if it is not negative, otherwise int |
| `ScalarText.BoolRoundTrip` | src/libs/config/yaml_node.h:124-156 | a printed truth value reads back, has the type bool and is no number |
| `ScalarText.TruthWords` | src/libs/config/yaml_node.h:124-156 | for every text: it reads as true if and only if it is y, yes, true or on, and as false if and only if it is n, no, false or off, each in lower case, capitalized or in upper case; no other text is a truth value |
| `NumberText.BasesRead` | src/libs/config/yaml_node.h:164-184 | every number is read back from its hexadecimal text behind 0x or 0X, in small or capital letters, from its octal text behind a 0, and from its decimal text |
| `NumberText.SignsRead` | src/libs/config/yaml_node.h:164-184 | white space and a sign may go before an integer in any of these forms |
| `NumberText.AccessorRanges` | src/libs/config/yaml_node.h:164-208 | the unsigned accessor takes 0 to 2^63 - 1 and wraps at 32 bits, the signed one takes exactly the 32-bit values; white space may follow for the signed one alone |
| `NumberText.TruthNoInteger` | src/libs/config/yaml_node.h:124-184 | no text reads both as a truth value and as an integer |
| `NumberText.DecimalRead` | src/libs/config/yaml_node.h:186-208 | digits, perhaps a point and a fraction, perhaps an exponent, with a sign and white space around, are read as the number they say |
| `NumberText.OnlyDecimals` | src/libs/config/yaml_node.h:186-208 | and no text of another form is read as a number |
| `NumberText.SameNumber` | src/libs/config/yaml_node.h:186-208 | whether a number is in the range of floats depends on the number alone, not on where its point is |
| `NumberText.DecimalKind` | src/libs/config/yaml_node.h:1023-1049 | a decimal number with a point is a float as far as floats go, and a string beyond |
| `NumberText.FloatWords` | src/libs/config/yaml_node.h:196-206 | .inf, .Inf and .INF with or without a sign are floats, and so are .nan, .NaN and .NAN without one, but not with one |
| `NumberText.LargestFloat` | src/libs/config/yaml_node.h:186-208 | the largest number that is a float and the largest that is an unsigned int, and the types of those after them |
| `ConfigTree.PrefixFree` | src/libs/config/yaml_node.h:935-948 | no leaf path is a proper prefix of another |
| `ConfigTree.SetValueLeafs` | src/libs/config/yaml_node.h:661-670 | set_value throws, changing nothing, exactly on an interior path; otherwise the leaf map gains or changes that one leaf and loses exactly the leaves that are proper prefixes of the path; the leaf has the type of its text if and only if there was no list whose first item has another type |
| `ConfigTree.SetListLeafs` | src/libs/config/yaml_node.h:678-694 | the same for set_list |
| `ConfigTree.EraseLeafs` | src/libs/config/yaml_node.h:360-399 | erase succeeds exactly on leaf paths and otherwise changes nothing; the new leaf map is the old one without the path, so no pruned ancestor turns into a leaf |
| `ConfigTree.NamedAt` | src/libs/config/yaml_node.h:389 | the name of a node is the last key of its path, which is what erase relies on |
| `YamlNode.YamlConfigurationNode.constructor` | src/libs/config/yaml_node.h:242-244 | a new node has no type, no text and no children |
| `YamlNode.YamlConfigurationNode.Root` | src/libs/config/yaml_node.h:238-240 | a default node is an empty root |
| `YamlNode.YamlConfigurationNode.AddChild` | src/libs/config/yaml_node.h:281-288 | files the child and makes the node a map unless it is a map or a sequence of maps |
| `YamlNode.YamlConfigurationNode.Find` | src/libs/config/yaml_node.h:320-340 | finds the node at a path exactly if the path exists in the represented tree |
| `YamlNode.YamlConfigurationNode.FindOrInsert` | src/libs/config/yaml_node.h:342-358 | the nodes missing along the path are made, nothing else changes, and the result is the node at the path |
| `YamlNode.YamlConfigurationNode.Reach` | src/libs/config/yaml_node.h:347-357 | the insertion loop, proved against the recursive insertion |
| `YamlNode.YamlConfigurationNode.SetScalar` | src/libs/config/yaml_node.h:811-816 | sets the text and the type, determined while the node is still what it was: from the first item if it is a list |
| `YamlNode.YamlConfigurationNode.SetScalarList` | src/libs/config/yaml_node.h:818-823 | sets the items and the list type |
| `YamlNode.YamlConfigurationNode.SetValue` | src/libs/config/yaml_node.h:661-670 | the heap tree becomes the tree of set_value; false exactly where it throws |
| `YamlNode.YamlConfigurationNode.SetList` | src/libs/config/yaml_node.h:678-694 | the heap tree becomes the tree of set_list |
| `YamlNode.YamlConfigurationNode.SetDefaultAt` | src/libs/config/yaml_node.h:922-933 | sets the flag of the node at an existing path and fails on any other, changing nothing else |
| `YamlNode.YamlConfigurationNode.Descend` | src/libs/config/yaml_node.h:364-382 | the first loop of erase: the stack holds the nodes along the path, from the top on |
| `YamlNode.YamlConfigurationNode.PruneUp` | src/libs/config/yaml_node.h:384-398 | the stack loop cuts the leaf and exactly the ancestors left empty, up to the root |
| `YamlNode.YamlConfigurationNode.Erase` | src/libs/config/yaml_node.h:360-399 | the heap tree becomes the pruned tree; false, changing nothing, exactly where it throws |
| `YamlNode.YamlConfigurationNode.Merge` | src/libs/config/yaml_node.h:438-506 | operator+= makes of the heap tree what the overlay of the two trees is, also when it throws midway; everything added is newly allocated, so it shares no node with the other tree |
| `YamlNode.YamlConfigurationNode.MergeNode` | src/libs/config/yaml_node.h:456-503 | the branches for scalars, lists, sequences of maps and maps |
| `YamlNode.YamlConfigurationNode.MergeKids` | src/libs/config/yaml_node.h:494-503 | the loop over the children, in key order, up to the first that throws |
| `YamlNode.YamlConfigurationNode.Create` | src/libs/config/yaml_node.h:252-279 | builds the tree of a document out of fresh nodes; none where it throws |
| `YamlNode.YamlConfigurationNode.SetSequence` | src/libs/config/yaml_node.h:831-867 | a list of texts, or numbered children for a sequence of maps, or failure |
| `YamlNode.YamlConfigurationNode.SetMap` | src/libs/config/yaml_node.h:869-908 | the entries in order, keys with slashes leading deeper, with the type check on repeated keys |
| `YamlNode.YamlConfigurationNode.EmitEntries` | src/libs/config/yaml_node.h:966-986 | writes the map structure of the represented tree |
| `YamlNode.YamlConfigurationNode.Emit` | src/libs/config/yaml_node.h:989-1002 | writes nothing for a node without children |
| `YamlNode.YamlConfigurationNode.EnumLeafs` | src/libs/config/yaml_node.h:935-948 | adds the leaves below a node under prefix and path text |
| `YamlNode.YamlConfigurationNode.Diff` | src/libs/config/yaml_node.h:529-562 | returns the list of differences of the two represented trees |
| `ConfigMerge.MergeNodeIsMerged` | src/libs/config/yaml_node.h:438-506 | the overlay succeeds if and only if no path holds a scalar, list or sequence of maps that the other tree cannot overwrite, and then its result is the structural merge, whatever the order of the children |
| `ConfigMerge.MergeFresh` | src/libs/config/yaml_node.h:446-453 | overlaying onto a missing node never fails and leaves a deep copy |
| `ConfigMerge.MergeIntoClean` | src/libs/config/yaml_node.h:438-506 | overlays keep containers free of text of their own |
| `OverlayLaws.MergeIsOverlay` | src/libs/config/yaml_node.h:438-506 | for trees that agree in kind wherever both have a node: every leaf of b wins, every other leaf of a survives, and a sequence of maps in b replaces the whole one in a |
| `OverlayLaws.MergedCompatible` | src/libs/config/yaml_node.h:438-506 | an overlay stays compatible with everything its two parts were compatible with |
| `OverlayLaws.OverlayIdempotent` | src/libs/config/yaml_node.h:438-506 | overlaying the same tree twice gives the leaf map of overlaying it once |
| `OverlayLaws.MergedIsOverlay` | src/libs/config/yaml_node.h:438-506 | two compatible overlays, put together, can be overlaid as one |
| `OverlayLaws.OverlayAssociative` | src/libs/config/yaml_node.h:438-506 | for three compatible trees both groupings of the overlays succeed and give the same leaf map |
| `RootName.KeptExactlyIfRootless` | src/libs/config/yaml_node.h:446 | a tree overlaid on an empty configuration keeps its leaf map if and only if no node below the top is called root |
| `ConfigDoc.CreateMergeable` | src/libs/config/yaml_node.h:252-279 | every document with proper keys gives a tree in which each child is filed under its own name, none is called root, and types fit contents |
| `DocPaths.KeyOfPath` | src/libs/config/yaml_node.h:875-889 | a key with slashes between proper keys stands for the path of these keys, for every path |
| `DocPaths.FurtherSlashes` | src/libs/config/yaml_node.h:875-889 | further slashes in such a key change nothing |
| `DocPaths.EntryLaw` | src/libs/config/yaml_node.h:869-908 | an entry puts its value at its path and below, makes what the path runs through interior, and changes nothing else, for every path of the tree |
| `DocPaths.EntryThrows` | src/libs/config/yaml_node.h:890-906 | an entry throws if and only if its key is made of slashes only, its value cannot be read, or the top of the map has a child of the name of the value with another type, even where the value is filed deeper |
| `DocPaths.MapHoldsItsEntries` | src/libs/config/yaml_node.h:869-908 | the tree of a map has at every path what the last entry that has to do with the path says, and nothing where no entry has |
| `DocPaths.OneEntry` | src/libs/config/yaml_node.h:869-908 | for every path of proper keys, a document whose only key is that path is read if and only if its value is and the first key is not the name of the value with another type; the value is then at that path and no leaf is elsewhere |
| `DocPaths.SequenceHoldsItsItems` | src/libs/config/yaml_node.h:831-867 | a sequence is read as the list of its texts in their order, or as children under the numbers from 0 on in theirs, or throws, with the exact condition for each |
| `EmitReread.EmitThenReread` | src/libs/config/yaml_node.h:966-986 | reading back what was written never fails, and gives the same leaf map, types included, if and only if all leaves are scalars with the types of their texts |
| `LeafDiff.EnumIsLeafs` | src/libs/config/yaml_node.h:935-948 | the enumeration holds every leaf under the text of its path and nothing else |
| `LeafDiff.DiffExact` | src/libs/config/yaml_node.h:529-562 | diff lists exactly the leaf paths of only one tree or unequal under operator!=, each once |
| `LeafDiff.DiffIsMetricLike` | src/libs/config/yaml_node.h:529-562 | as sets: the difference of a tree to itself is empty, order does not matter, and the difference of a and c lies within those of a and b and of b and c |
| `ConfigLoad.QueueShrinks` | src/libs/config/yaml.cpp:486-506 | every round of the loading loop makes the total unfolded size of the queue smaller by one: loading ends |
| `ConfigLoad.LoadIsBreadthFirst` | src/libs/config/yaml.cpp:486-506 | the queue loop reads the files level by level of the include tree |
| `ConfigLoad.LoadSeqOverlays` | src/libs/config/yaml.cpp:497-502 | what is loaded is the overlay of the documents in that order |
| `ConfigLoad.LastWins` | src/libs/config/yaml.cpp:473-526 | for compatible documents, the value of each path is that of the last document that defines it |
| `ConfigStart.LastFileWins` | src/libs/config/yaml.cpp:473-526 | the same for a whole load: breadth-first order of the includes, the host document after all others |
| `LoadOrder.OrderIsLoaded` | src/libs/config/yaml.cpp:486-506 | the files are read level by level: the file itself, what it includes in the order of its includes, each directory by the order of its names, then what those include; stated over names alone |
| `LoadOrder.TargetsInOrder` | src/libs/config/yaml.cpp:608-690 | where the files of an include are in that order: behind the file and what it includes before, in front of what it includes after and of all further levels |
| `LoadOrder.LastNameWins` | src/libs/config/yaml.cpp:473-526 | for compatible documents, a path has the value of the last file in the order that defines it, unless a later file or the host file touches it |
| `LoadOrder.LastNameOfDirectory` | src/libs/config/yaml.cpp:669-672 | for an included directory, a path has the value of the last of its names whose document defines it, unless something loaded after the directory or the host file touches it |
| `LoadOrder.OnlyDirectory` | src/libs/config/yaml.cpp:669-672 | a file that includes nothing but a directory whose files include nothing: the order is the file and then the names of the directory |
| `ConfigInputs.SecondFileWins` | src/libs/config/yaml.cpp:669-672 | the concrete case: a directory with two files that give one path two values, whatever these are; the load succeeds and the second file wins |
| `LoadOrder.LoopExactly` | src/libs/config/yaml.cpp:486-506 | the loading loop succeeds if and only if the first file is there and can be parsed, everything included can be read or is missing and may be, at most one host file is named, and all documents can be made into trees and overlaid |
| `LoadOrder.HostExactly` | src/libs/config/yaml.cpp:508-526 | and the end of a load if and only if the host file can be parsed, includes nothing but missing directories that may be missing, and its document fits the rest |
| `LoadOrder.HarmoniousOverlays` | src/libs/config/yaml.cpp:497-502 | documents that fit together can all be overlaid |
| `LoadOrder.MetaHostReached` | src/libs/config/yaml.cpp:608-690 | where a meta document throws, the host file is the one named before |
| `LoadOrder.WatchedFiles` | src/libs/config/yaml.cpp:486-526 | the files to be watched are those read that have a document, the host file last |
| `ConfigLayers.LeafShown` | src/libs/config/yaml_node.h:438-506 | after an overlay that succeeds, a leaf of the upper tree is there with its text or items if and only if the lower tree has no node with children and no null of another type at its path, or a sequence of maps above is replaced as a whole |
| `ConfigLayers.OverlayAllFits` | src/libs/config/yaml.cpp:497-502 | overlays of proper documents that all succeed, whether they agree in kind or not, leave a tree that is named and of fitting kinds |
| `ConfigStart.LoadStartsExactly` | src/libs/config/yaml.cpp:508-526 | a load of proper documents with a host file establishes the invariant of all later runs if and only if the other files let every host leaf through |
| `ConfigStart.ConfigDone` | src/libs/config/yaml.cpp:473-526 | a load that does not throw reaches its result; what is reached otherwise is the state at the throw |
| `ConfigStart.LoadStartsRuns` | src/libs/config/yaml.cpp:508-526 | a load of compatible documents with a host file establishes the invariant of all later runs |
| `ConfigStart.LoadIsLayered` | src/libs/config/yaml.cpp:508-526 | after loading, the effective leaves are those of the other files overridden by the host leaves |
| `ConfigStart.LoadSurvives` | src/libs/config/yaml.cpp:508-526 | after a load of compatible documents whose host document has scalars only and no sequence of maps, a restart restores all values, from the host file as it is and as it would be written |
| `ConfigStart.LoadIsRestarted` | src/libs/config/yaml.cpp:473-526 | loading again after the host file was rewritten, when no other file read is that file, overlays its document on the tree of the other files, and throws exactly where that does |
| `ConfigStart.LoadRunRestart` | src/libs/config/yaml.cpp:473-526 | a load, any run of lasting steps that ends unlocked, and another load: the second load succeeds and every value is there with its type |
| `ConfigReload.ReloadAdopts` | src/libs/config/yaml.cpp:528-549 | after a reload the difference to the newly read tree is empty; the leaves are the new ones unless exactly items of lists have changed |
| `ConfigReload.ReloadKeeps` | src/libs/config/yaml.cpp:528-569 | if a reload takes new trees, the invariant of runs holds afterwards if and only if they come with a host file whose leaves the other files let through; if it keeps the old ones, because nothing differs or reading throws, if and only if the host file still has the leaves of the host tree |
| `ConfigReload.CompatibleReloadKeeps` | src/libs/config/yaml.cpp:528-549 | for compatible documents with a host file: the reload keeps the invariant if and only if it reports a difference or the host file still has the leaves of the host tree |
| `ConfigReload.EventsKeepTrees` | src/libs/config/yaml.cpp:528-549 | over every run of calls and reloads, host leaves stay effective leaves with the same text or items, and a write is pending only while locked |
| `ConfigReload.EventKeeps` | src/libs/config/yaml.cpp:528-549 | an event of such a run keeps the whole invariant if and only if it is no reload that keeps the old trees over a changed host file |
| `ConfigReload.EventsKeep` | src/libs/config/yaml.cpp:528-549 | the whole invariant is kept over every run without such a reload |
| `ConfigReload.NextWriteMends` | src/libs/config/yaml.cpp:689-709 | after any of them, the next set or erase that succeeds, or the end of a lock under which one did, makes the invariant whole again |
| `ConfigReload.MissedEditIsOverwritten` | src/libs/config/yaml.cpp:538-549 | if a reload finds no difference, leaves that only the host file on the disk has are not taken over, and the next set that is written removes them from the file |
| `ConfigInputs.MovedValueIsLost` | src/libs/config/yaml.cpp:538-549 | the concrete case: a value moved from the main file to the host file is in no file any more after the next set |
| `ConfigInputs.HiddenHostValue` | src/libs/config/yaml_node.h:499-503 | a host value over a null of the main file: the load succeeds and the value is not effective |
| `ConfigReload.SameButLists` | src/libs/config/yaml_node.h:508-518 | two trees without differences have the same leaf map exactly if their lists have the same items |
| `ConfigReload.ListChangeIsMissed` | src/libs/config/yaml_node.h:514-518 | an item added to a list is no difference: a concrete pair of trees |
| `YamlConfig.ReadMetaDoc` | src/libs/config/yaml.cpp:608-681 | the include loop: what is pushed on the queue in which order, the host file found, and when it throws |
| `YamlConfig.ReadYamlFile` | src/libs/config/yaml.cpp:427-471 | a missing, broken, empty, one-document or two-document file: its tree of fresh nodes, its includes, or failure |
| `YamlConfig.ReadAll` | src/libs/config/yaml.cpp:481-506 | the loading loop on the heap, proved equal to the loop on values |
| `YamlConfig.ReadYamlConfig` | src/libs/config/yaml.cpp:473-526 | both trees on the heap, sharing no node, or failure exactly where the source throws |
| `YamlConfig.YamlConfiguration.constructor` | src/libs/config/yaml.cpp:302-312 | both trees null, no host file, nothing pending, not locked |
| `YamlConfig.YamlConfiguration.LoadFrom` | src/libs/config/yaml.cpp:367-406 | takes over both trees read; false exactly where loading throws, which leaves the effective tree and the host file name as far as they were read, and the host tree as it was, null or what was read |
| `YamlConfig.YamlConfiguration.WriteHostFile` | src/libs/config/yaml.cpp:689-709 | writes now, or leaves a note while the mutex is held, or fails without a host file |
| `YamlConfig.YamlConfiguration.SetScalar` | src/libs/config/yaml.cpp:934-978 | both trees, then the file, in that order and stopping at the first failure; keeps the invariant of runs |
| `YamlConfig.YamlConfiguration.SetItems` | src/libs/config/yaml.cpp:985-1037 | the same for lists |
| `YamlConfig.YamlConfiguration.Erase` | src/libs/config/yaml.cpp:1049-1055 | the host tree first, then the effective tree, then the file; keeps the invariant of runs |
| `YamlConfig.YamlConfiguration.UnlockIt` | src/libs/config/yaml.cpp:1134-1144 | writes what is pending and releases the mutex |
| `YamlConfig.YamlConfiguration.FamEvent` | src/libs/config/yaml.cpp:528-549 | replaces the trees and the host file exactly if reading succeeds and there are differences, and reports those; keeps the invariant of runs if and only if the reload is harmless |
| `ConfigRuns.PutBothTrees` | src/libs/config/yaml.cpp:934-941 | a set fails on the effective tree, changing nothing, or succeeds on both trees: it never gets stuck between them |
| `ConfigRuns.EraseBothTrees` | src/libs/config/yaml.cpp:1049-1055 | the same for erase |
| `ConfigRuns.StepKeeps` | src/libs/config/yaml.cpp:934-1055 | every call keeps the invariant, and with a host file a call that throws changes nothing |
| `ConfigRuns.RunKeeps` | src/libs/config/yaml.cpp:689-709 | over every run of lock, set, erase and unlock: every host leaf is an effective leaf with the same text or items, and a scalar where that is one; the file is the host tree as written or a write is pending, and that only while locked |
| `ConfigRuns.ScalarRunsAreStored` | src/libs/config/yaml.cpp:1134-1144 | whatever scalars a run sets and erases, from host leaves that are scalars typed by their texts, once unlocked the file gives back exactly the host leaves |
| `ConfigRuns.StepKeepsTypes` | src/libs/config/yaml.cpp:934-941 | where host and effective leaves have the same types, a step keeps that if and only if it is no set of a path where another file holds a list whose first item has another type than the text |
| `ConfigRuns.RunKeepsTypes` | src/libs/config/yaml.cpp:934-941 | over every run without such a set, host leaves have the types of the effective leaves |
| `ConfigRuns.ListGivesItsType` | src/libs/config/yaml.cpp:971-978 | the concrete case: over the list [1, 2] of another file, the string x gets type unsigned int in the effective tree and string in the host tree |
| `ConfigRuns.TextAfterList` | src/libs/config/yaml_node.h:811-823 | after setting a list and then a text at one path, the file gives back the host leaves if and only if the text has the type of the first item |
| `ConfigRuns.ListIsNotStored` | src/libs/config/yaml.cpp:985-1037 | every list that is set leaves a file that gives back other leaves |
| `ConfigRuns.ListAfterText` | src/libs/config/yaml_node.h:966-986 | a text and then a list set at the same path: the file has the text |
| `ConfigRuns.NoHostFile` | src/libs/config/yaml.cpp:692-694 | without a host file a set reports an error although both trees have taken the value |
| `ConfigRestart.RestartedLeafs` | src/libs/config/yaml_node.h:438-506 | loading the written host tree over the other files throws if and only if a scalar, list or sequence of maps of theirs is on the way to a host leaf, or a list or sequence of maps is at it; otherwise every path has the leaf that the two trees determine |
| `ConfigRestart.RestartIsRestored` | src/libs/config/yaml.cpp:508-526 | a restart restores the effective leaf map if and only if, path by path, the leaves of the three trees fit |
| `ConfigRestart.PutSurvives` | src/libs/config/yaml.cpp:934-978 | a successful set survives a restart if and only if the other files have maps, nulls or nothing on the way to the path and a scalar or nothing at it, and no key is root |
| `ConfigRestart.PutStopsTheLoad` | src/libs/config/yaml_node.h:455-503 | a set that does not survive makes the next load throw if and only if a scalar, list or sequence of maps of the other files is in the way; otherwise it is silently lost |
| `ConfigRestart.PutListIsLost` | src/libs/config/yaml.cpp:985-1037 | a list that is set never survives a restart |
| `ConfigRestart.EraseSurvives` | src/libs/config/yaml.cpp:1049-1055 | a successful erase survives a restart if and only if any leaf of the other files at the path or on the way to it has another host leaf below it |
| `ConfigRestart.ErasedValueComesBack` | src/libs/config/yaml.cpp:1049-1055 | the concrete case: a value of another file, set and erased again, is gone and back after a restart |
| `ConfigRestart.StepRestores` | src/libs/config/yaml.cpp:689-709 | from a state that a restart restores, a restart after a step, with what is on the disk once pending writes are done, restores the new state if and only if the step is lasting |
| `ConfigRestart.RestartRestores` | src/libs/config/yaml.cpp:508-526 | after any run of lasting steps that ends unlocked, reading the host file over the other files succeeds and gives the effective leaf map |
| `ConfigRestart.SetOverListStopsTheLoad` | src/libs/config/yaml_node.h:461-465 | a number set over a list of another file: the next load throws |
| `ConfigRestart.SetOverNullIsLost` | src/libs/config/yaml_node.h:499-503 | a number set over a null of another file: the next load succeeds without it |
| `ConfigRestart.SetBelowNullSurvives` | src/libs/config/yaml_node.h:499-503 | a number set below that null survives |
| `ConfigRestart.SetBelowSequenceStopsTheLoad` | src/libs/config/yaml_node.h:490-494 | a number set below a sequence of maps of another file: the next load throws |
| `NetCodec.PutHeader` | src/libs/config/net_list_content.cpp:103-108 | clears and fills the 136 header bytes: at most 127 characters of the path, flag, count and type |
| `NetCodec.PutWords` | src/libs/config/net_list_content.cpp:86-93 | the number loops write each number as four little-endian bytes at its place |
| `NetCodec.PutStrings` | src/libs/config/net_list_content.cpp:172-182 | the string loop, through an advancing pointer, writes every record and never past the computed size |
| `NetCodec.StringsSize` | src/libs/config/net_list_content.cpp:124-128 | adds up header, length and terminator of every string |
| `NetCodec.Append` | src/libs/config/net_list_content.cpp:96-191 | a buffer of exactly the computed size whose bytes represent the entity |
| `NetCodec.ReadStrings` | src/libs/config/netconf.cpp:1007-1017 | the decoder loop, with its advancing pointer, reads what the recursive reading gives, or finds the record too short |
| `NetCodec.DecodeRecord` | src/libs/config/netconf.cpp:939-1037 | the branches of the decoder for one record |
| `NetCodec.NumbersRoundTrip` | src/libs/config/netconf.cpp:940-1003 | numbers come back if and only if a list has at least one and fewer than 65536 of them; of an empty list the decoder reads past the end |
| `NetCodec.StringsRoundTrip` | src/libs/config/netconf.cpp:1005-1031 | strings without a terminator inside and shorter than 65536 come back, advancing by header, length and one |
| `NetCodec.ShortenedText` | src/libs/config/net_list_content.cpp:105 | the path sent has at most 127 characters and is the whole path if it is shorter than 128 |
| `NetCodec.RecordHeader` | src/libs/config/net_list_content.cpp:103-108 | the first 136 bytes, one by one: at most 127 characters of the path, zeros, the flag, the 16-bit count with its lower byte first, the type |
| `NetCodec.RecordWord` | src/libs/config/net_list_content.cpp:86-93 | the j-th number is in the four bytes from 136 + 4 j on, the lowest first |
| `NetCodec.RecordString` | src/libs/config/net_list_content.cpp:172-182 | the strings from byte 136 on: each has its length in 16 bits, two bytes that nobody sets, its characters and a terminator |
| `NetCodec.IgnoredExactly` | src/libs/config/netconf.cpp:939-1037 | a record is ignored if and only if its path is terminated and its type is none of the five |
| `NetCodec.NumbersDecoded` | src/libs/config/netconf.cpp:940-1003 | any record of numbers, whoever made it: read if and only if it has as many bytes as its count says, with the values of its words |
| `NetCodec.StringDecoded` | src/libs/config/netconf.cpp:1005-1031 | any record of a single string: read if and only if it has as many bytes as the length says, with these characters |
| `ValueMessage.PutDescriptor` | src/libs/config/net_handler.h:89-104 | path, flag and 16-bit count of a cleared message |
| `ValueMessage.SendValue` | src/libs/config/net_handler.cpp:93-232 | the message for one value: every field, the values that the loops copy, and zeros where they copy none |
| `ValueMessage.MessageBytes` | src/libs/config/net_handler.cpp:93-232 | the message for numbers, byte by byte; of 32768 and more signed numbers or truth values none is copied |
| `ValueMessage.GetValues` | src/libs/config/netconf.cpp:1636-1898 | the typed getters: the message type and count they insist on, and the values they read |
| `ValueMessage.NumbersArrive` | src/libs/config/netconf.cpp:1636-1865 | numbers asked for arrive if and only if they are a single value, or a list of 2 to 65535 elements that is no list of truth values and, for signed numbers, has at most 32767 elements or only zeros |
| `ValueMessage.StringsArrive` | src/libs/config/netconf.cpp:1867-1898 | sendable strings arrive if and only if they are a single one or a list of 2 to 65535 |
| `ValueMessage.AskedOtherwise` | src/libs/config/netconf.cpp:1636-1898 | a single value does not arrive where a list is asked for, nor a list where a single value is |
| `ListBuffer.DynamicBuffer.constructor` | src/libs/netcomm/utils/dynamic_buffer.cpp:62-78 | an empty list in a buffer of the initial size |
| `ListBuffer.DynamicBuffer.Append` | src/libs/netcomm/utils/dynamic_buffer.cpp:119-149 | appends length and bytes, doubling the buffer at most once, and counts in 16 bits; throws, leaving the list as it was, exactly for a list being read, a record over 65533 bytes or one that finds no room |
| `ListBuffer.DynamicBuffer.Next` | src/libs/netcomm/utils/dynamic_buffer.cpp:246-263 | moves past the current record and gives the next one; throws, changing nothing, exactly if none is left |
| `ListBuffer.UnpackPacked` | src/libs/netcomm/utils/dynamic_buffer.cpp:246-263 | iterating over packed records gives exactly these |
| `ListBuffer.SmallRecordsFit` | src/libs/netcomm/utils/dynamic_buffer.cpp:119-149 | records of at most 1022 bytes are refused if and only if together they exceed the largest buffer |
| `ListBuffer.FirstRecordIsSmall` | src/libs/netcomm/utils/dynamic_buffer.cpp:129-139 | the first record finds room if and only if it has at most 2046 bytes |
| `ListBuffer.RoomExactly` | src/libs/netcomm/utils/dynamic_buffer.cpp:119-149 | a record finds room if and only if it has at most 65533 bytes and fits into the buffer as it is or once it has grown, which doubles it below two gigabytes |
| `ListBuffer.ElementBytes` | src/libs/netcomm/utils/dynamic_buffer.cpp:119-149 | a record in the buffer: its length with the higher byte first, and its bytes |
| `Mirror.SentCovers` | src/libs/config/net_handler.cpp:242-264 | the two passes send one entity for every leaf; making the list throws exactly if some leaf cannot be read as its first item suggests or the list buffer has no room for a record |
| `Mirror.ReadableExactly` | src/libs/config/net_list_content.cpp:110-137 | a leaf can be read if and only if the accessor that reads its first item reads all of them |
| `Mirror.RecordOfLeaf` | src/libs/config/net_list_content.cpp:96-191 | the record of a leaf, byte by byte: the type is that of the accessor that reads the first item, in the order unsigned int, int, bool, float and string, and the words are what that accessor reads |
| `Mirror.RecordOfEmptyList` | src/libs/config/net_list_content.cpp:110-112 | an empty list is sent as one of unsigned numbers |
| `Mirror.SentInOrder` | src/libs/config/net_handler.cpp:242-264 | the default values come first and then the others, both with ascending paths |
| `Mirror.SmallLeavesAreSent` | src/libs/config/net_list_content.cpp:186-187 | readable leaves with records of at most 1022 bytes are sent if and only if together they fit the largest buffer |
| `Mirror.SingleLeafIsSent` | src/libs/config/net_list_content.cpp:186-187 | a configuration with a single leaf is sent if and only if that is readable and its record has at most 2046 bytes, which means at most 477 numbers |
| `Mirror.ReceiveHolding` | src/libs/config/memory.cpp:282-420 | storing at a path apart from all others never throws and adds exactly that leaf |
| `Mirror.ReceiveAllHolding` | src/libs/config/netconf.cpp:937-1040 | a whole list of entities with paths apart from one another is stored without a set that throws |
| `Mirror.StoreMarks` | src/libs/config/memory.cpp:282-420 | setting marks the node as default or not, a list as no default, and has the leaf map of set_value or set_list |
| `Mirror.StoredUpToTerminator` | src/libs/config/memory.cpp:386-396 | a text with a terminator inside is stored up to it |
| `Mirror.SentTextsAlike` | src/libs/config/net_list_content.cpp:110-191 | the texts stored for what is sent read like the texts of the server with every accessor: unsigned int, int, bool and string always, float if the values survive being printed |
| `Mirror.UnknownSkipped` | src/libs/config/netconf.cpp:939-1037 | a record of an unknown type in the list is passed over |
| `Mirror.StoredReads` | src/libs/config/memory.cpp:282-420 | each stored value or list reads back the same, except exactly single strings that are default values and floating-point values that printing and reading changes |
| `Mirror.DefaultStringIsTrue` | src/libs/config/memory.cpp:409-414 | the concrete case: the default string x is read back as true |
| `Mirror.SubscribeMirrors` | src/libs/config/netconf.cpp:929-1040 | whatever records represent the list sent, the client takes in the bytes without an exception or a read out of bounds, and every leaf it has reads like that of the server but for those exceptions; it has all of them if and only if there are fewer than 65536 |
| `MemoryConfig.ConfigListContent.Append` | src/libs/config/net_list_content.cpp:96-191 | packs a record for the node the iterator is at into the list buffer; fails, leaving the records as they were, exactly if the node cannot be read or there is no room |
| `MemoryConfig.AppendPass` | src/libs/config/net_handler.cpp:247-252 | one pass over the leaves, for one value of the default flag, up to the first that cannot be read or finds no room |
| `MemoryConfig.Subscribe` | src/libs/config/net_handler.cpp:242-264 | defaults first, then the others: the records represent what is to be sent |
| `MemoryConfig.MemoryConfiguration.constructor` | src/libs/config/memory.cpp:40-45 | an empty store |
| `MemoryConfig.MemoryConfiguration.SetScalar` | src/libs/config/memory.cpp:282-315 | set, then mark as default or not; a throwing set leaves the flag alone |
| `MemoryConfig.MemoryConfiguration.SetItems` | src/libs/config/memory.cpp:323-356 | set the list, then mark it as no default |
| `MemoryConfig.MemoryConfiguration.TakeList` | src/libs/config/netconf.cpp:935-1040 | the list loop over the bytes of a message: the store becomes what taking in the counted records one by one gives |
| `MemoryConfig.MemoryConfiguration.IteratorFor` | src/libs/config/memory.cpp:483-522 | the two filtered iterators hold exactly the leaves with the flag |
| `MemoryConfig.FlagsPartition` | src/libs/config/memory.cpp:483-522 | together they are the whole iterator, and they share no entry |
| `Listener.UidDecides` | src/libs/interface/interface.cpp:631-636 | two interfaces have the same UID if and only if they are equal for operator== |
| `Listener.FlagBits` | src/libs/blackboard/blackboard.h:88-92 | the bits of the flags |
| `Listener.RequestView` | src/libs/blackboard/interface_listener.cpp:219-242 | a request changes what is or will be active by exactly that interface; an add fails if and only if it is active already |
| `Listener.RunRefinesLog` | src/libs/blackboard/interface_listener.cpp:342-426 | over every run of requests, flushes and ends of a registration, queue and maps stand for the plain log of accepted requests, in which the end of a registration asks again for what was active |
| `Listener.RunTidy` | src/libs/blackboard/interface_listener.cpp:219-242 | over every run without an end of a registration, at most one entry for an event and an interface, no pending add of an active one, and every interface filed under its own name |
| `Listener.FullFlushTidy` | src/libs/blackboard/interface_listener.cpp:342-426 | a full flush makes that hold again after the end of a registration |
| `Listener.FromStart` | src/libs/blackboard/interface_listener.cpp:342-426 | all three, from an empty listener on |
| `Listener.FlushKeepsViews` | src/libs/blackboard/interface_listener.cpp:342-426 | a flush makes the map of each flagged event its view, leaves other maps alone and changes no view |
| `Listener.UnflaggedEntries` | src/libs/blackboard/interface_listener.cpp:342-426 | exactly the entries of unflagged events stay |
| `Listener.UnflaggedKeepsOrder` | src/libs/blackboard/interface_listener.cpp:342-426 | and they keep their order |
| `Listener.FlushTwice` | src/libs/blackboard/interface_listener.cpp:342-426 | flushing for f and then for g is flushing for both at once |
| `Listener.UnregisterView` | src/libs/blackboard/interface_listener.cpp:435-465 | after unregistering all maps are empty and every formerly active interface is asked for after what was pending |
| `Listener.ReregisterRestores` | src/libs/blackboard/interface_listener.cpp:435-465 | a full flush then yields the old view if and only if no removal of an active interface was pending |
| `Listener.RemovalIsUndone` | src/libs/blackboard/interface_listener.cpp:435-465 | the concrete case: an interface asked to be removed is active again after registering again |
| `Listener.BlackBoardInterfaceListener.QueueAdd` | src/libs/blackboard/interface_listener.cpp:219-242 | the deduplication loop; false, changing nothing, exactly where it throws |
| `Listener.BlackBoardInterfaceListener.AddMessageInterface` | src/libs/blackboard/interface_listener.cpp:256-265 | only a writing instance can be watched for messages |
| `Listener.BlackBoardInterfaceListener.ReleaseQueue` | src/libs/blackboard/interface_listener.cpp:342-426 | the flush loop, which erases while it iterates, ends and gives the flushed state |
| `Listener.BlackBoardInterfaceListener.ReleaseMaps` | src/libs/blackboard/interface_listener.cpp:435-465 | the four loops queue all active interfaces and clear the maps |
| `Aspects.InitSpec` | src/libs/aspect/manager.cpp:114-155 | init succeeds if and only if every aspect is registered and initializes; then the thread is tracked under all its aspects; otherwise tracking is unchanged and exactly the initialized aspects are finalized, in reverse order |
| `Aspects.UndoExactly` | src/libs/aspect/manager.cpp:137-141 | the rollback goes on up to the first finalizer that throws, which is the last that is called |
| `Aspects.FinalizeSpec` | src/libs/aspect/manager.cpp:157-181 | finalize untracks the thread everywhere if all finalizers are known and succeed, and otherwise changes no tracking |
| `Aspects.FinalizeCalls` | src/libs/aspect/manager.cpp:163-173 | the finalizers are called in the order of the aspects, up to one that throws or is unknown |
| `Aspects.PrepareExactly` | src/libs/aspect/manager.cpp:183-205 | a thread may go if and only if every aspect is registered and none refuses; asking throws if and only if an aspect is unknown and none before it refuses |
| `Aspects.TrackingOrder` | src/libs/aspect/manager.cpp:132-134 | a new thread goes to the end of the lists of its aspects, and a thread that goes leaves the others in their order |
| `Aspects.RegisterExactly` | src/libs/aspect/manager.cpp:76-83 | registering succeeds if and only if the name is free, and adds exactly that initializer |
| `Aspects.UnregisterExactly` | src/libs/aspect/manager.cpp:88-101 | unregistering succeeds if and only if the aspect is known and has no threads, and takes exactly that initializer away |
| `Aspects.RunSafe` | src/libs/aspect/manager.cpp:76-101 | over every run, whatever fails: a thread is tracked under all of its aspects or none, and every aspect in use is registered |
| `Aspects.TrackedCanBeFinalized` | src/libs/aspect/manager.cpp:157-201 | after any run, finalizing a tracked thread, or asking whether it may go, never meets an unknown aspect |
| `Aspects.AspectManager.RegisterIniFin` | src/libs/aspect/manager.cpp:76-83 | false, changing nothing, for a name that is taken |
| `Aspects.AspectManager.UnregisterIniFin` | src/libs/aspect/manager.cpp:88-101 | false, changing nothing, for a name that is unknown or in use |
| `Aspects.AspectManager.HasThreadsForAspect` | src/libs/aspect/manager.cpp:108-112 | true exactly if some thread is tracked under the aspect |
| `Aspects.AspectManager.InitThread` | src/libs/aspect/manager.cpp:114-155 | the loops of init with rollback: the calls made, in order, and the new tracking |
| `Aspects.AspectManager.UndoLoop` | src/libs/aspect/manager.cpp:137-141 | the rollback runs from the last initialized aspect to the first, up to a finalizer that throws |
| `Aspects.AspectManager.Finalize` | src/libs/aspect/manager.cpp:157-181 | the loops of finalize |
| `Aspects.AspectManager.PrepareFinalize` | src/libs/aspect/manager.cpp:183-205 | stops at the first aspect that refuses or is unknown |
| `Threads.InternalAddSpec` | src/libs/baseapp/thread_manager.cpp:226-243 | adds exactly that thread, keeping timed threads in the bucket of their hook |
| `Threads.InternalRemoveSpec` | src/libs/baseapp/thread_manager.cpp:201-217 | removes exactly that thread and the bucket it leaves empty |
| `Threads.AddExact` | src/libs/baseapp/thread_manager.cpp:301-354 | managed and tracked threads stay the same set unless the thread fails in its own init after its aspects were initialized, and either it was managed already or its finalizers fail too: if and only if |
| `Threads.AddedTwice` | src/libs/baseapp/thread_manager.cpp:301-354 | the concrete case: a thread added twice, whose own init fails the second time, is managed without its aspects |
| `Threads.AddKeeps` | src/libs/baseapp/thread_manager.cpp:301-354 | adding a thread that is not managed keeps the system consistent on every failure path; it is managed afterwards exactly if adding succeeded |
| `Threads.RemoveKeeps` | src/libs/baseapp/thread_manager.cpp:430-458 | removing keeps it consistent, and a removal that throws changes nothing |
| `Threads.RemoveOutcome` | src/libs/baseapp/thread_manager.cpp:430-458 | a removal succeeds if and only if the thread lets itself be removed and finalized and every aspect of it is known and finalizes it; otherwise nothing changes |
| `Threads.AddedAndRemoved` | src/libs/baseapp/thread_manager.cpp:430-458 | the concrete case: a thread with an aspect is added and removed again, and both succeed |
| `Threads.BucketOrder` | src/libs/baseapp/thread_manager.cpp:201-243 | a new thread is the last of its bucket, and a thread that goes leaves the others in their order |
| `Threads.OrderlyRuns` | src/libs/baseapp/thread_manager.cpp:584-588 | over every orderly run: managed exactly if tracked, and timed_threads_exist exactly if some managed thread is timed |
| `Threads.WakeChangesNothing` | src/libs/baseapp/thread_manager.cpp:557-572 | waking a hook never finds an empty bucket to erase |
| `Threads.SplitTimeout` | src/libs/baseapp/thread_manager.cpp:544-554 | seconds and nanoseconds add up to the microseconds asked for, without overflow in 32 bits |
| `Threads.ThreadManager.InternalAddThread` | src/libs/baseapp/thread_manager.cpp:226-243 | the bucket is made if it is missing |
| `Threads.ThreadManager.InternalRemoveThread` | src/libs/baseapp/thread_manager.cpp:201-217 | every occurrence is removed, and an empty bucket with it |
| `Threads.ThreadManager.AddThread` | src/libs/baseapp/thread_manager.cpp:301-354 | the steps in order, with the thread finalized again when its own init fails |
| `Threads.ThreadManager.RemoveThread` | src/libs/baseapp/thread_manager.cpp:430-458 | the steps in order, each of which may refuse |
| `SqlImport.ReadLine` | src/libs/config/sqlite.cpp:418-430 | the inner loop reads up to the first statement end after more than two characters, the end of the buffer or of the file |
| `SqlImport.Import` | src/libs/config/sqlite.cpp:404-442 | passes the pieces to the database in order, up to the first that is refused |
| `SqlImport.NothingLost` | src/libs/config/sqlite.cpp:404-442 | for a file without NUL the pieces passed to the database concatenate to the file |
| `SqlImport.SplitExact` | src/libs/config/sqlite.cpp:418-430 | a file made of statements is split into exactly these if and only if each fits the buffer and has no earlier statement end |
| `SqlImport.WholeMeans` | src/libs/config/sqlite.cpp:418-430 | what is kept together: 3 to 4095 characters with a semicolon and a line break at the end and none before |
| `SqlImport.Dump` | src/libs/config/sqlite.cpp:344-368 | writes every statement followed by a semicolon and a line break |
| `SqlImport.DumpImports` | src/libs/config/sqlite.cpp:306-368 | importing a dump passes exactly the dumped statements to the database if and only if each text has at most 4093 characters, no semicolon at the end of an inner line and no NUL |
| `SqlImport.CutValue` | src/libs/config/sqlite.cpp:418-430 | the concrete case: a value with a semicolon at the end of a line arrives as two broken statements |
| `ChangeHandlers.Configuration.AddChangeHandler` | src/libs/config/config.cpp:602-611 | inserts after the handlers with the same prefix |
| `ChangeHandlers.Configuration.RemChangeHandler` | src/libs/config/config.cpp:618-643 | the restarting search ends and has removed every registration of the handler and no other |
| `ChangeHandlers.Configuration.FindHandlers` | src/libs/config/config.cpp:650-666 | collects, for every matching entry, all handlers with its prefix |
| `ChangeHandlers.FoundTimes` | src/libs/config/config.cpp:650-666 | a handler is found as often as there are entries with its prefix, times its own registrations |
| `ChangeHandlers.NotifiedOnce` | src/libs/config/config.cpp:650-666 | it is found exactly if registered for a prefix of the path, and found once if and only if no other registration has that prefix |
| `ChangeHandlers.NoPrefixFindsAll` | src/libs/config/config.cpp:602-611 | a handler without a prefix is told of every change |
| `ChangeHandlers.InsertedLast` | src/libs/config/config.cpp:602-611 | a new handler is the last of those with its prefix |
| `SchemaClosure.TypeSet.RecursiveTransitiveTypes` | etc/restapi-gen/restapi-gen.py:115-127 | ends for every graph; picks every schema that builds on a new member, and nothing that is not needed for that |
| `SchemaClosure.LeastIsDescendants` | etc/restapi-gen/restapi-gen.py:115-127 | the least closed set around a name is what a chain of references leads to |
| `SchemaClosure.RefTypeReads` | etc/restapi-gen/restapi-gen.py:57-64 | a reference to a schema of the same document is reduced to its name, and every other text to itself |
| `SchemaClosure.ReferringDescends` | etc/restapi-gen/restapi-gen.py:115-127 | a schema whose allOf has the literal reference to another one descends from it |
| `SchemaClosure.OneReference` | etc/restapi-gen/restapi-gen.py:115-132 | the concrete case: what descends from W where S refers to W is S and W |
| `SchemaClosure.FilterTransitiveTypes` | etc/restapi-gen/restapi-gen.py:129-132 | for a schema, exactly its descendants in order; for any other name only that name |

## Left out

- YamlNode.YamlConfigurationNode.Merge: for trees whose containers carry no text of their own, which is what every load starts from and keeps (`ConfigMerge.MergeIntoClean`); below a node that has text, the items of a list go through the type of that text (src/libs/config/yaml_node.h:467-488). For the same reason the target of the call is no list itself.
- YamlNode.YamlConfigurationNode.Create: for documents without a key made of slashes only, for which the source takes the last element of an empty vector.
- YamlNode.YamlConfigurationNode.Erase: for trees whose children are filed under their names; every configuration is one (`ConfigRuns.RunKeeps`, `ConfigStart.LoadStartsRuns`).
- ConfigTree.SetValueLeafs: for paths other than the empty one, which names the root; `ConfigRuns.PutAtTop` covers that case. The same holds for SetListLeafs and EraseLeafs, where erasing the root of an empty tree is accepted and changes nothing.
- OverlayLaws.MergeIsOverlay: for trees that agree in kind; what overlaying other trees does is in `ConfigMerge.MergeInto` and the exact condition for its success in `ConfigMerge.MergeNodeIsMerged`.
- ConfigLoad.LoadIsBreadthFirst: for acyclic includes; a file that includes itself makes the source read it forever.
- ConfigRuns.RunKeeps: a write of the host file that the operating system refuses is not modelled; reloads in between are in `ConfigReload.EventsKeep`.
- ConfigStart.LoadRunRestart: for documents that agree in kind and a host document of scalars without sequences of maps; `ConfigRestart.RestartIsRestored` decides all other starts. What is written is taken to be parsed as the same document.
- ConfigStart.LoadStartsExactly: for documents without empty keys and keys called root; what a key called root does is in `RootName.KeptExactlyIfRootless`.
- Mirror.SubscribeMirrors: how floating-point values are read and printed is a parameter; leaves without a value are sent as empty strings.
- NetCodec.StringsRoundTrip: one direction only, since the bytes after a terminator inside a string are never set and may happen to be right.
- ValueMessage.SendValue: for strings shorter than 65536; longer ones overwrite one another, since the pointer advances by the truncated length.
- ListBuffer.DynamicBuffer.Append: memory is always found; the list header is a pair of numbers, of which the count is sent with the bytes.
- Aspects.InitSpec: initializers fail with the framework's own exceptions; any other exception is not caught by the source and nothing is rolled back.
- Threads.OrderlyRuns: one thread at a time; thread lists, barriers and the waking itself are not part of this model.
- Access to files, directories, the host name and inotify, and the parsing of YAML: parsed documents and the include graph are inputs.
- The calls of change handlers after a set or a reload; whom they reach is in `ChangeHandlers`.
- Checks of tagged scalars (addresses, URLs, frames): pattern matching without state.
- Updates of single values in a mirror, and the set requests of the network handler.
- The SQLite engine and the queries built on it.
- Scheduling, mutex ordering and memory exhaustion.
- Interface types are taken to be free of colons, as the blackboard requires of them (src/libs/interface/interface.cpp:1424-1431).
- The add and remove requests of the listener for readers and writers, and the remove request for messages, which only differ in the event they name.
