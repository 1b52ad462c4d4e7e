# RESTCONF southbound provider: verified model

This project models, in Dafny, the logic of the RESTCONF provider for ONOS and of the mock device that
comes with it, and proves what that logic promises:

* the configuration tree of the mock device: `get_extmethods` builds one helper object per known node, and
  `set_modified` carries a timestamp and entity tags from a node up to the datastore;
* the api-path parser and the list-instance parser and printer;
* the device state machine and the reachability that is read off it;
* device identity and the map of configured devices;
* media types: parameters, equality, hashing and compatibility.

## Files

| file | contents |
|---|---|
| Wrappers.dfy, Text.dfy, Counting.dfy | options; `split`, `join`, `strip`, `lower`, decimal text and what each means; images and listings of finite sets |
| ApiPathGrammar.dfy | the api-path grammar as syntax trees with a printer, and the meaning of a path; splits no text |
| ListInstance.dfy, DataResource.dfy | the two parser classes, proved against the grammar |
| EditHistory.dfy | a pure model of a configuration tree under edits, and its laws over whole runs |
| YinTree.dfy, YinFile.dfy | the YIN tree, the value dictionary, and the walk that builds the helpers |
| WalkOrder.dfy | the orders of the dictionary keys, and which path each of them leaves under a text |
| MockDevice.dfy | a client that builds the helpers and serves a run of requests |
| DataHelper.dfy | the helper objects, the datastore globals, the tag source, `set_modified` |
| StateMachine.dfy | the transition table, the closed form of every run, the event methods |
| MediaType.dfy | media types |
| Devices.dfy, ProviderConfig.dfy | device id, equality, hashing, reachability; the configured devices |

## How the parts fit

The walk returns, beside the dictionary keyed by path text, a ghost map keyed by the component names. `Describes`
says that this map has exactly the known paths, each with the right helper and the right parent. The order in which
the dictionaries list their keys is a parameter, and any order is allowed: `Outcome` says which path it leaves
under each text, and `FiledBy` that the dictionary holds exactly the helpers of these paths. `Filed` is what is true
under every order. `WalkFromRootIsForest` and `WalkFromRootIsClosed` turn the result into a forest in
which every ancestor of a configuration helper is one, and `EditAll` proves that any run of `set_modified` and of
the setter on the heap objects of such a forest is `Run` of the pure model. Every law of EditHistory therefore
holds of the objects. `BuildAndEdit` puts it together: for every schema, value and run of requests it states what
each built helper shows at the end.

The parser methods keep the branches of the source and are specified by the grammar alone: a path is valid
exactly when a sequence of well-formed segments prints to it, and its dictionary is the grouping of these
segments by module. The grammar is proved unambiguous, so there is only one such sequence. A refused path comes
with an error that blames the right part of its first bad piece, and no piece deserves two errors.

What the specifications rest on is pinned to the literals of the source by laws that do not name it: the characters
of identifiers, white space and letter case, decimal numerals, the keywords and tags of a file, the default members
of a device entry, wildcards, and the hash functions of the Java library.

## Assumptions

* The clock reading is a parameter. No law needs a clock that never goes backwards unless it says so.
* `uuid4` never repeats: tags are numbered in the order in which they are drawn, and the tag shared by all
  helpers before their first edit was drawn earlier.
* A helper's parent is set by its constructor only, so it is a constant here. The two helper classes differ in
  `is_config` alone and are one class with that flag.
* Text is ASCII where case or white space matters. An IP address is identified with its printed text, and the
  parser of addresses is a parameter.
* The order in which a dictionary or map lists its entries is a parameter.
* The conversions of text to a float and to a long integer are parameters. Where it matters, numbers print without
  white space and commas.
* A raised exception is a flag or an absent result.

## Repairs to code that does not run as written

* restconfDataResource.py:82 calls `contains` on a string; read as the `in` test.
* restconfDataResource.py:97 passes its two arguments in the wrong order; read in the order of the parameters.
* restconfDataResource.py:108 extends the list by the characters of a string; read as appending the segment.
* restconfDataResource.py:76 yields an empty first piece for every path that starts with "/", which would then be
  refused; that piece is dropped, and "/" alone is the empty path. A path without a "/" in front is accepted,
  as the code does.
* restconfDataResource.py:184-197 takes the length of a list-instance object and indexes it; read as its identifier
  and its key text, which is kept as a field. The second identifier check at 191 then never fails.
* restconfListInstance.py:64 reads a resource field that the class does not have; the message names the
  list-instance only.
* restconfListInstance.py:77 calls a method by a name it does not have; read as the validation at 79.
* The class-level dictionary and key list are fields of each object.
* The log line of `nextState` reads a device id that is never assigned; it is left out.

## Where the code and its promises differ

* The comment at restconfDataResource.py:55-71 wants a "/" in front and no keys on the first segment. The code
  accepts both departures, and its tests want the second one: `UndocumentedWithoutSlash` and
  `UndocumentedFirstKeys` are the examples, `DocumentedExactlyWhen` the exact condition.
* The tests at test_restconfDataResource.py:158-172 want an empty dictionary after a failure. The code keeps the
  segments in front of the bad one: `FailureKeepsSegments` is the example, and the constructor of `DataResource`
  says when the dictionary is empty. The test at 146-156 swaps a module and a node; the grammar is followed,
  as in `NameInFrontIsModule`.
* The stored text of a list-instance is meant to identify it, but white space at the ends of its keys is stripped
  away: `StoredCollision` shows two list-instances that meet, `StoredSameExactlyWhen` says when.
* Setting a timestamp to an older time breaks "no child is newer than its parent": `OlderTimeBreaksOrder` is the
  example, `TouchKeepsOrderExactlyWhen` and `TouchKeepsDatastoreNewestExactlyWhen` give the exact conditions for
  one edit, `RunOrderedExactlyWhen` and `RunDatastoreNewestExactlyWhen` for a whole run.
* A dictionary key that contains "/" lets one helper overwrite another: `SlashCollision`, `SlashCollisionLosesHelper`
  and `OrderDecides` are the example. `NothingOverwrittenExactlyWhen` and `WalkOrders.OrderDoesNotMatterExactlyWhen`
  give the exact condition on the value and the schema, and `SlashFreeTextsDiffer` rules it out for YANG names.
* A config statement without its value argument makes the walk raise: `MissingConfigValue` is the example,
  `GetExtmethods` says exactly when.
* The parameters of a media type may depend on the iteration order of the map they come from:
  `OrderMattersForMixedCase` is the example, `MediaTypes.OrderDoesNotMatterExactlyWhen` says when they do not.
* A list-instance is meant to print as it was written. A key that holds every white space character and reads as a
  number prints as that number: `NumberAmongSpaces` is the example, `PrintedIsParsedExactlyWhen` the exact
  condition. No key ever becomes a flag, and the step from long to plain integer is never taken.
* RestconfDeviceInfo.java:71 tests a boxed flag for null, so a port that is not positive is accepted, as
  `NegativePortAccepted` and `Make` state.
* RestconfProviderConfig.java:190 adds the text of the device entry instead of that of a media type, once for
  every member of the entry; that text is empty, as `MediaTypesOf` says.

## Model

| member | source | states |
|---|---|---|
| EditHistory.RunClosedForm | tools/mockDevice/restconfConfigHelper.py:89-99 | after every run of edits a node carries the time of the latest edit anywhere in its subtree and the tag that edit drew for it, or its initial version if there was none |
| EditHistory.TagsAgreeExactlyWhen | tools/mockDevice/restconfConfigHelper.py:31-32 | over all nodes and all points of a run, two entity tags agree exactly when both are unedited, or it is one node after the same last edit of its subtree |
| EditHistory.TagUnchangedExactlyWhen | tools/mockDevice/restconfConfigHelper.py:107-117 | between two points of a run a node keeps its entity tag exactly when neither it nor anything below it was edited |
| EditHistory.DatastoreFollowsTopmost | tools/mockDevice/dataModels.py:33-37 | after an edit the datastore has its time and the tag of the top-most ancestor of the edited node |
| EditHistory.TouchKeepsOrderExactlyWhen | tools/mockDevice/restconfConfigHelper.py:65-76 | an edit at any explicit time keeps ancestors at least as new as their descendants exactly when no node off the edited chain, under the same top-level node, is newer than that time |
| EditHistory.TouchKeepsDatastoreNewestExactlyWhen | tools/mockDevice/restconfConfigHelper.py:92-93 | the datastore stays at least as new as every node exactly when no node off the edited chain is newer than the time set |
| EditHistory.MonotoneRunStaysOrdered | tools/mockDevice/restconfConfigHelper.py:78-99 | with a clock that never goes backwards no run makes a node newer than an ancestor, and after the first edit the datastore is at least as new as every node |
| EditHistory.StampIsLatestBelow | tools/mockDevice/restconfConfigHelper.py:53-63 | with such a clock the timestamp is the latest of all edit times at or below the node, or the initial one |
| EditHistory.RunOrderedExactlyWhen | tools/mockDevice/restconfConfigHelper.py:65-99 | after any run, at whatever times, no node is newer than an ancestor exactly when every ancestor's last edit is at least as new as what each descendant it came after had |
| EditHistory.RunDatastoreNewestExactlyWhen | tools/mockDevice/restconfConfigHelper.py:92-93 | after any run the datastore is at least as new as every node exactly when the last edit is at least as new as what every node off its chain has |
| EditHistory.OlderTimeBreaksOrder | tools/mockDevice/restconfConfigHelper.py:65-76 | counterexample: setting an older time leaves parent and datastore older than another child |
| DataHelpers.DataHelper.constructor | tools/mockDevice/restconfConfigHelper.py:34-39 | a new helper has the given node and parent and shows the timestamp and tag of its class |
| DataHelpers.DataHelper.SetModified | tools/mockDevice/restconfConfigHelper.py:78-105 | the call stamps the helper and its ancestors up to the first that is not configuration, draws one fresh tag for each, leaves the last in the datastore, and raises exactly when it meets an ancestor that is not configuration |
| DataHelpers.DataHelper.SetLastModified | tools/mockDevice/restconfConfigHelper.py:65-76 | the property setter does the same at the given time |
| DataHelpers.StampedExactly | tools/mockDevice/restconfConfigHelper.py:89-99 | the climb writes exactly the helper and its ancestors from the given depth on, all with one time and pairwise different fresh tags, and no other helper |
| DataHelpers.TopConfigMeaning | tools/mockDevice/restconfConfigHelper.py:97-105 | the climb passes configuration helpers only and stops right below one that is not |
| DataHelpers.TopConfigOfClosed | tools/mockDevice/restconfConfigHelper.py:101-105 | where ancestors of configuration helpers are configuration helpers the climb reaches the top |
| DataHelpers.NeverRaisesExactlyWhen | tools/mockDevice/restconfConfigHelper.py:101-105 | no configuration helper can raise exactly when every ancestor of one is one |
| DataHelpers.StampingIsTouching | tools/mockDevice/restconfConfigHelper.py:89-99 | a climb to the top is one edit of the pure model, datastore and tag source included |
| DataHelpers.EditOne | tools/mockDevice/restconfConfigHelper.py:65-99 | one call on the heap objects of a closed forest, through the setter when a time is given, is one edit of the pure model, does not raise and changes no status helper |
| DataHelpers.EditAll | tools/mockDevice/restconfConfigHelper.py:65-105 | every run of calls on the heap objects, at clock times and chosen times, is the run of the pure model; none raises and no status helper changes |
| MockDevice.Serve | tools/mockDevice/restconfConfigHelper.py:65-105 | every run of requests by path text is the run of the pure model on the helpers they name |
| MockDevice.EditsForSnoc | tools/mockDevice/restconfConfigHelper.py:65-89 | a request adds one edit when it names a configuration resource, at the time it gives or else at that of the clock, and none otherwise |
| MockDevice.BuildAndEdit | tools/mockDevice/yinFile.py:137-205 | for every schema, value, key order and run of requests: the walk raises exactly on a missing config value, and then datastore and tag source are untouched; else every configuration helper ends with the version of the last request at or below it, every status helper as it was built, and the datastore with the last edit |
| DataHelpers.StampingKeepsStatus | tools/mockDevice/restconfConfigHelper.py:57-58 | stamping a configuration helper of a closed forest changes no status helper |
| DataHelpers.UntouchedSnapshot | tools/mockDevice/restconfConfigHelper.py:31-32 | freshly built helpers are an initial state for the laws over runs |
| DataHelpers.DataModels.UpdateDatastore | tools/mockDevice/dataModels.py:33-37 | the datastore takes the given timestamp and tag |
| YinFiles.YinFile.constructor | tools/mockDevice/yinFile.py:54-59 | the namespace is the one written in the tag of the root, which NamespaceOfTag reads out of it |
| YinTree.NamespaceOfTag | tools/mockDevice/yinFile.py:56-57 | the namespace is the text between the braces in front of the tag of the root, and there is none without a brace |
| YinFiles.YinFile.GetExtmethods | tools/mockDevice/yinFile.py:137-205 | for every order of the dictionary keys: the helpers built are exactly those of the known paths, with the right schema node, config flag and parent; under each path text stands the helper of the path that this order leaves there, and nothing else is filed; the walk raises exactly when a config statement it must read has no value |
| YinFiles.YinFile.ConfigOf | tools/mockDevice/yinFile.py:185-191 | a node is configuration exactly when that is inherited and it does not say "false"; it raises exactly when it inherits config "true" and its statement has no value |
| YinFiles.YinFile.WalkKey | tools/mockDevice/yinFile.py:164-203 | one key of the dictionary: its own helper and then what the walk below it files join the dictionary, later entries over earlier ones; it raises exactly when a path that starts with this key does |
| YinTree.ChildFrom | tools/mockDevice/yinFile.py:172-184 | a child with a keyword tag and the given name, none exactly when there is no such child |
| YinTree.FindFrom | tools/mockDevice/yinFile.py:190 | a child with the given tag, none exactly when there is no such child |
| YinTree.NamedExactlyWhen | tools/mockDevice/yinFile.py:34-41 | a node is taken for a key exactly when it has that name and its tag is one of the seven keywords in the namespace of the file |
| YinTree.FirstChildIsTaken | tools/mockDevice/yinFile.py:172-184 | of several such children the first one is taken |
| YinTree.KnowsExactlyWhen | tools/mockDevice/yinFile.py:164-179 | a key is known exactly when the value has it and some child of the schema node has that name and a keyword tag |
| YinTree.FirstConfigCounts | tools/mockDevice/yinFile.py:190-191 | of several config statements the first one counts; it switches config off exactly when its value is "false" in any mix of cases |
| YinTree.NoConfigStatement | tools/mockDevice/yinFile.py:190-191 | without a config statement a node neither switches config off nor raises |
| YinTree.ConfigExactlyWhen | tools/mockDevice/yinFile.py:185-191 | config worked out in one pass down the tree is the inheritance rule of section 7.19.1 of RFC 6020: no node on the way says "false" |
| YinTree.ConfigOnPrefix | tools/mockDevice/yinFile.py:185-191 | config on at a node implies config on at all its ancestors |
| YinTree.LocatePrefixClosed | tools/mockDevice/yinFile.py:172-179 | the known paths are closed under dropping trailing components |
| YinTree.PathTextInjective | tools/mockDevice/yinFile.py:167 | without "/" in the component names different paths have different texts |
| YinTree.SlashCollision | tools/mockDevice/yinFile.py:167 | counterexample: with "/" in a key a configuration path and a status path, both known, share one text |
| YinTree.MissingConfigValue | tools/mockDevice/yinFile.py:189-191 | counterexample: a config statement without a value makes the walk raise where config "true" is inherited, and only there |
| YinFiles.ConfigFollowsRule | tools/mockDevice/yinFile.py:185-194 | a built helper is a configuration helper exactly when what it inherits is "true" and no node on its path says "false" |
| YinFiles.WalkFromRootIsForest | tools/mockDevice/yinFile.py:164-205 | a walk from the root builds exactly the known paths and links every helper to the one a component up |
| YinFiles.WalkFromRootIsClosed | tools/mockDevice/restconfConfigHelper.py:101-105 | in a built tree ancestors of configuration helpers are configuration helpers, so set_modified never raises |
| YinFiles.BuiltPrefixClosed | tools/mockDevice/yinFile.py:203 | the built paths are closed under dropping trailing components |
| YinFiles.NothingOverwrittenExactlyWhen | tools/mockDevice/yinFile.py:196-203 | the dictionary has one entry per built helper exactly when no two known paths of the value and schema share a text, and fewer otherwise |
| YinTree.SlashFreeTextsDiffer | tools/mockDevice/yinFile.py:167 | keys without "/" never make two known paths share a text |
| WalkOrders.OrderDoesNotMatterExactlyWhen | tools/mockDevice/yinFile.py:164 | all orders of the dictionary keys leave the same path under every text exactly when no two known paths of the value and schema share a text |
| WalkOrders.TakenLastWins | tools/mockDevice/yinFile.py:196-203 | every known path is what is left under its text by some order: one that takes each of its components last |
| WalkOrders.OutcomeTexts | tools/mockDevice/yinFile.py:196-203 | whatever the order, something is left under exactly the texts of the known paths |
| YinFiles.WalksAgreeExactlyWhen | tools/mockDevice/yinFile.py:164-203 | two walks under two orders file the same texts with helpers of the same kind for the same nodes and paths exactly when the orders leave the same paths, and always when no two known paths share a text |
| YinFiles.OrderDecides | tools/mockDevice/yinFile.py:196-203 | counterexample: at the schema and value of SlashCollision one order files a configuration helper under "/a/b" and another order a status helper |
| YinFiles.FiledByIsFiled | tools/mockDevice/yinFile.py:196-203 | under every order each helper of the dictionary is one that was built for a path of that text, and no text of a built helper is missing |
| YinFiles.EachUnderItsText | tools/mockDevice/yinFile.py:196 | when no two known paths share a text every helper is found under its own text |
| YinFiles.SlashCollisionLosesHelper | tools/mockDevice/yinFile.py:196-203 | counterexample: at the schema and value of SlashCollision every dictionary has fewer entries than helpers were built |
| ApiPathGrammar.GroupedBySnoc | tools/restconf/message/restconfDataResource.py:103-108 | one more segment appends its text under its module and changes nothing else |
| ApiPathGrammar.GroupingConserves | tools/restconf/message/restconfDataResource.py:76-108 | the lists of all modules together are as long as the path |
| ApiPathGrammar.InstanceUnambiguous | tools/restconf/message/restconfListInstance.py:48 | no text is the text of two list-instances; empty keys count |
| ApiPathGrammar.SegmentUnambiguous | tools/restconf/message/restconfDataResource.py:55-71 | no text is the text of two different segments |
| ApiPathGrammar.StoredSameExactlyWhen | tools/restconf/message/restconfDataResource.py:189-199 | two segments are stored under one text exactly when names agree, both or neither have keys, and the key texts agree up to white space at the ends |
| ApiPathGrammar.StoredInjective | tools/restconf/message/restconfDataResource.py:196-199 | without such white space the stored text determines name and keys |
| ApiPathGrammar.StoredCollision | tools/restconf/message/restconfDataResource.py:197 | counterexample: stripping makes two list-instances meet |
| ApiPathGrammar.ExplicitKeepsGroups | tools/restconf/message/restconfDataResource.py:82-108 | writing the inherited module names out leaves the dictionary as it was |
| ApiPathGrammar.ExplicitIsWellFormed | tools/restconf/message/restconfDataResource.py:110-162 | the path with all names written out is a path again when its first segment carries a name |
| ApiPathGrammar.ExplicitFormExists | tools/restconf/message/restconfDataResource.py:77-108 | a path has an equivalent form with a name on every segment exactly when its first segment has one |
| DataResources.PathExactlyWhenPiecesDenote | tools/restconf/message/restconfDataResource.py:76-108 | soundness and completeness of splitting: the pieces are the texts of the segments exactly when the resource is that path |
| DataResources.PathUnambiguous | tools/restconf/message/restconfDataResource.py:55-71 | a resource has at most one reading as a path |
| DataResources.DataResource.constructor | tools/restconf/message/restconfDataResource.py:39-41 | a resource is valid exactly when it is a path of the grammar, and its dictionary is then the grouping of its segments by module; otherwise it groups the segments in front of the first bad piece, is empty exactly when the first piece is bad, and the error blames that piece |
| DataResources.BlamesOne | tools/restconf/message/restconfDataResource.py:92-192 | no piece deserves two errors: too many colons, a bad module name, a bad identifier and a bad list-instance exclude each other |
| DataResources.JukeboxResource | tools/restconf/message/restconfDataResource.py:54-108 | "/example-jukebox:jukebox/artist=Foo,1 " is accepted, with "jukebox" and "artist[Foo,1]" under its module |
| ApiPathGrammar.JukeboxPath | tools/mockDevice/dataModels.py:123 | a path with a module name that holds a hyphen and a list-instance is a path of the grammar |
| ApiPathGrammar.IdentifierExactlyWhen | tools/restconf/message/restconfDataResource.py:32-52 | an identifier is a letter or "_" followed by letters, digits, "_", "-" and "." |
| DataResources.FailureKeepsSegments | tools/restconf/message/restconfDataResource.py:99-108 | counterexample: "/abcd/" is refused with "abcd" in the dictionary |
| DataResources.EmptyExactlyWhen | tools/restconf/message/restconfDataResource.py:99-108 | after a failure the dictionary is empty exactly when the first piece is no segment |
| DataResources.DocumentedExactlyWhen | tools/restconf/message/restconfDataResource.py:55-74 | of the accepted resources, those in the grammar of the comment are exactly the ones that start with "/" and have no "=" in the first piece |
| DataResources.UndocumentedWithoutSlash | tools/restconf/message/restconfDataResource.py:55-57 | counterexample: "abcd" is accepted |
| DataResources.UndocumentedFirstKeys | tools/restconf/message/restconfDataResource.py:55-57 | counterexample: "/a=k" is accepted |
| DataResources.NameInFrontIsModule | tools/restconf/message/restconfDataResource.py:82-90 | in "a:b/c:d" the names in front of ":" are the modules |
| DataResources.DataResource.ParseApiPath | tools/restconf/message/restconfDataResource.py:54-108 | the dictionary groups exactly the segments in front of the first bad one, in order, and the resource is valid exactly when there is none; else the error blames that one |
| DataResources.DataResource.FileUnder | tools/restconf/message/restconfDataResource.py:103-108 | the stored text is appended to the list of its module, which is made on first use |
| DataResources.DataResource.ParseSegment | tools/restconf/message/restconfDataResource.py:79-101 | a segment text is accepted exactly when it denotes a segment; it yields the segment's module, or else the one carried forward, and its stored text; a refused text is blamed for what is wrong with it |
| DataResources.DataResource.ParseModuleAndIdentifier | tools/restconf/message/restconfDataResource.py:110-134 | accepted exactly when the module is an identifier and the rest the body of a segment; the error names the module first |
| DataResources.DataResource.ParseIdentifierOrListInstance | tools/restconf/message/restconfDataResource.py:136-162 | accepted exactly when the text is an identifier or a list-instance; the error names the one that its "=" asks for |
| DataResources.DataResource.ParseListInstance | tools/restconf/message/restconfDataResource.py:164-199 | accepted exactly when the text is a list-instance, stored with its stripped key text in brackets; else the error names it |
| DataResources.ReparseExplicit | tools/restconf/message/restconfDataResource.py:82-162 | parsing the path with all module names written out gives the same dictionary |
| ListInstances.ListInstance.constructor | tools/restconf/message/restconfListInstance.py:38-41 | valid exactly for well-formed list-instances, whose name, key text and converted keys are then the ones stored; else the error blames the name, or the text as a whole |
| ListInstances.ListInstance.ParseListInstance | tools/restconf/message/restconfListInstance.py:43-77 | every well-formed name and key list whose text this is comes back, empty keys included and each key converted, and every other text is refused with the error it deserves |
| ListInstances.ListInstance.ValidateAndModifyKeys | tools/restconf/message/restconfListInstance.py:79-111 | the keys are converted one by one and appended in order |
| ListInstances.ListInstance.ToString | tools/restconf/message/restconfListInstance.py:129-138 | prints the name, "=" and the keys as they show with commas between |
| ListInstances.PrintParsed | tools/restconf/message/restconfListInstance.py:129-138 | every accepted text prints, and prints back to itself exactly when no key holds all white space characters and reads as a number |
| ListInstances.KeptExactlyWhen | tools/restconf/message/restconfListInstance.py:88-107 | a key prints as it was written exactly when some white space character is missing in it or it reads as no number; no key becomes a flag |
| ListInstances.HoldsAllSpacesExactlyWhen | tools/restconf/message/restconfListInstance.py:90 | the test before a conversion asks for all six white space characters |
| ListInstances.ConvertedShows | tools/restconf/message/restconfListInstance.py:91-107 | a key that passes the test shows as its float, or else as its long integer |
| ListInstances.PrintedIsParsedExactlyWhen | tools/restconf/message/restconfListInstance.py:129-138 | printing the converted keys gives the parsed text back exactly when each key is kept |
| ListInstances.NumberAmongSpaces | tools/restconf/message/restconfListInstance.py:90-93 | counterexample: "1" followed by all white space characters prints as "1.0" where it reads as that float |
| StateMachines.RunClosedForm | protocols/restconf/ctl/src/main/java/org/onosproject/restconf/ctl/RestconfDeviceStateMachine.java:143-155 | the state after any run: IDLE without CONNECT, else by the events since the last CONNECT: FAILED, DISCOVERY, POPULATE, INACTIVE or ACTIVE |
| StateMachines.AdminDecides | protocols/restconf/ctl/src/main/java/org/onosproject/restconf/ctl/RestconfDeviceStateMachine.java:146-147 | once loaded, the last administrative event alone decides between ACTIVE and INACTIVE |
| StateMachines.ErrorFails | protocols/restconf/ctl/src/main/java/org/onosproject/restconf/ctl/RestconfDeviceStateMachine.java:143-148 | after a CONNECT an ERROR fails the device until the next CONNECT |
| StateMachines.PopulateClosedForm | protocols/restconf/ctl/src/main/java/org/onosproject/restconf/ctl/RestconfDeviceStateMachine.java:145-147 | runs from POPULATE without CONNECT and ERROR |
| StateMachines.DiscoveryClosedForm | protocols/restconf/ctl/src/main/java/org/onosproject/restconf/ctl/RestconfDeviceStateMachine.java:144-148 | runs from DISCOVERY without another CONNECT |
| StateMachines.ReachableExactlyWhen | protocols/restconf/ctl/src/main/java/org/onosproject/restconf/ctl/DefaultRestconfDevice.java:129-144 | after a CONNECT reachability ignores the network and holds exactly when no ERROR followed and the device is not administratively down |
| StateMachines.RestconfDeviceStateMachine.NextState | protocols/restconf/ctl/src/main/java/org/onosproject/restconf/ctl/RestconfDeviceStateMachine.java:326-331 | the state is always the one the table gives for the whole event history |
| StateMachines.RestconfDeviceStateMachine.Connect | protocols/restconf/ctl/src/main/java/org/onosproject/restconf/ctl/RestconfDeviceStateMachine.java:333-341 | always leads to DISCOVERY |
| StateMachines.RestconfDeviceStateMachine.Download | protocols/restconf/ctl/src/main/java/org/onosproject/restconf/ctl/RestconfDeviceStateMachine.java:343-351 | leads from DISCOVERY to POPULATE and nowhere else |
| StateMachines.RestconfDeviceStateMachine.Loaded | protocols/restconf/ctl/src/main/java/org/onosproject/restconf/ctl/RestconfDeviceStateMachine.java:353-361 | leads from POPULATE to ACTIVE and nowhere else |
| StateMachines.RestconfDeviceStateMachine.AdminStatusDown | protocols/restconf/ctl/src/main/java/org/onosproject/restconf/ctl/RestconfDeviceStateMachine.java:363-371 | leads from ACTIVE to INACTIVE and nowhere else |
| StateMachines.RestconfDeviceStateMachine.AdminStatusUp | protocols/restconf/ctl/src/main/java/org/onosproject/restconf/ctl/RestconfDeviceStateMachine.java:373-381 | leads from INACTIVE to ACTIVE and nowhere else |
| StateMachines.RestconfDeviceStateMachine.Error | protocols/restconf/ctl/src/main/java/org/onosproject/restconf/ctl/RestconfDeviceStateMachine.java:383-391 | leads to FAILED from everywhere but IDLE |
| Devices.DefaultRestconfDevice.Start | protocols/restconf/ctl/src/main/java/org/onosproject/restconf/ctl/DefaultRestconfDevice.java:76-85 | starting leads to DISCOVERY from every state |
| Devices.DefaultRestconfDevice.IsReachable | protocols/restconf/ctl/src/main/java/org/onosproject/restconf/ctl/DefaultRestconfDevice.java:129-144 | reachability in terms of the whole event history |
| Devices.DefaultRestconfDevice.EqualTo | protocols/restconf/ctl/src/main/java/org/onosproject/restconf/ctl/DefaultRestconfDevice.java:195-202 | devices with the same id have the same address and port and hence the same hash code, for every hash of addresses |
| Devices.SameIdExactlyWhen | protocols/restconf/api/src/main/java/org/onosproject/restconf/RestconfDeviceInfo.java:182-191 | the id text is the same exactly when address and port are, colons in the address allowed |
| Devices.RestconfDeviceInfo.Make | protocols/restconf/api/src/main/java/org/onosproject/restconf/RestconfDeviceInfo.java:64-86 | refused exactly for an empty user name or API root; a port that is not positive passes |
| Devices.RestconfDeviceInfo.GetDeviceId | protocols/restconf/api/src/main/java/org/onosproject/restconf/RestconfDeviceInfo.java:167-172 | the cached id is always the address, a colon and the decimal numeral that stands for the port |
| Devices.IdExactlyWhen | protocols/restconf/api/src/main/java/org/onosproject/restconf/RestconfDeviceInfo.java:182-191 | a text is the id of an address and a port exactly when it is the address, a colon and the numeral that reads as the port |
| Devices.HashPairMeaning | protocols/restconf/api/src/main/java/org/onosproject/restconf/RestconfDeviceInfo.java:234-236 | the hash code is the 32-bit integer congruent to 31 * (31 + hash of the address) + port |
| Devices.RestconfDeviceInfo.SetAdminState | protocols/restconf/api/src/main/java/org/onosproject/restconf/RestconfDeviceInfo.java:204-211 | sets the administrative state |
| ProviderConfig.GetDeviceInfo | providers/restconf/device/src/main/java/org/onosproject/provider/restconf/device/impl/RestconfProviderConfig.java:162-217 | fails as a whole exactly when one entry is refused; else one entry per address and effective port, filed under its id and made from the last array entry with that pair |
| ProviderConfig.DeviceOf | providers/restconf/device/src/main/java/org/onosproject/provider/restconf/device/impl/RestconfProviderConfig.java:171-207 | an entry is refused exactly when it has no valid address, no user name or an empty API root; else every member or its default is taken over: port 443, or 80 where TLS is off, TLS and the administrative state on, "/restconf", "xml" and "json"; listed media types become empty texts |
| ProviderConfig.EndpointExactlyWhen | providers/restconf/device/src/main/java/org/onosproject/provider/restconf/device/impl/RestconfProviderConfig.java:197-200 | the endpoint of an entry is its address with its port, or with 443, or with 80 where TLS is switched off |
| ProviderConfig.NegativePortAccepted | providers/restconf/device/src/main/java/org/onosproject/provider/restconf/device/impl/RestconfProviderConfig.java:199-205 | counterexample: an entry with port -1 is not refused |
| MediaTypes.CreateParametersMap | protocols/restconf/api/src/main/java/org/onosproject/restconf/RestconfMediaType.java:93-107 | the keys come out in lower case, each with the value of the entry that is last, in the order given, among those whose key it is when case is ignored |
| MediaTypes.SomeOrderGivesExactlyWhen | protocols/restconf/api/src/main/java/org/onosproject/restconf/RestconfMediaType.java:93-107 | the maps that the iteration orders lead to are exactly those that keep, for every key in lower case, one of the entries whose keys meet there |
| MediaTypes.OrderDoesNotMatterExactlyWhen | protocols/restconf/api/src/main/java/org/onosproject/restconf/RestconfMediaType.java:93-107 | all iteration orders of the given parameters lead to one map exactly when no two names that differ in case only carry different values |
| MediaTypes.Construct | protocols/restconf/api/src/main/java/org/onosproject/restconf/RestconfMediaType.java:159-178 | absent names become wildcards, a charset that is not empty is set, and the keys stay in lower case |
| MediaTypes.WithCharset | protocols/restconf/api/src/main/java/org/onosproject/restconf/RestconfMediaType.java:237-239 | the copy differs in the charset only, and is the original when none is given, for every iteration order |
| MediaTypes.SameParametersExactlyWhen | protocols/restconf/api/src/main/java/org/onosproject/restconf/RestconfMediaType.java:284-287 | with lower-case keys the case-ignoring map equality of the library is equality of the maps |
| MediaTypes.EqualExactlyWhen | protocols/restconf/api/src/main/java/org/onosproject/restconf/RestconfMediaType.java:279-288 | constructed media types are equal exactly when their names differ in the case of letters at most and their parameters are the same |
| MediaTypes.CaseInKeysBreaksHashing | protocols/restconf/api/src/main/java/org/onosproject/restconf/RestconfMediaType.java:304-307 | counterexample: two media types with parameter names in different case are equal, and with the hash functions of the Java library their hash codes differ |
| MediaTypes.OrderMattersForMixedCase | protocols/restconf/api/src/main/java/org/onosproject/restconf/RestconfMediaType.java:93-107 | counterexample: the two orders of "A" and "a" lead to two different maps |
| MediaTypes.EqualityContract | protocols/restconf/api/src/main/java/org/onosproject/restconf/RestconfMediaType.java:279-307 | equality of constructed media types is an equivalence, and equal ones have equal hash codes, for every hash of strings |
| MediaTypes.HashInAnyOrder | protocols/restconf/api/src/main/java/org/onosproject/restconf/RestconfMediaType.java:306 | the hash of the parameters is the same 32-bit sum in whatever order the entries are listed |
| MediaTypes.StringHashMeaning | protocols/restconf/api/src/main/java/org/onosproject/restconf/RestconfMediaType.java:306 | the hash of strings is s[0] * 31^(n-1) + ... + s[n-1] in 32 bits |
| MediaTypes.HashOfPlain | protocols/restconf/api/src/main/java/org/onosproject/restconf/RestconfMediaType.java:306 | "A" and "b" without parameters hash as the text "ab" |
| MediaTypes.CompatibilityContract | protocols/restconf/api/src/main/java/org/onosproject/restconf/RestconfMediaType.java:250-256 | compatibility is commutative and respects equality |
| MediaTypes.CompatibleExactlyWhen | protocols/restconf/api/src/main/java/org/onosproject/restconf/RestconfMediaType.java:250-256 | two media types are compatible exactly when some concrete names are covered by both, wildcards covering everything and case ignored |
| Text.DecimalInjective | protocols/restconf/api/src/main/java/org/onosproject/restconf/RestconfDeviceInfo.java:184 | decimal texts of different ports differ |
| Text.DecimalExactlyWhen | protocols/restconf/api/src/main/java/org/onosproject/restconf/RestconfDeviceInfo.java:184 | the decimal text of an integer is the only numeral that reads as it |
| Text.SplitJoin | tools/restconf/message/restconfListInstance.py:77 | splitting a joined list of comma-free keys gives the list back |
| Text.JoinSplit | tools/restconf/message/restconfDataResource.py:76 | joining the pieces of a split gives the text back |
| Text.StripMeaning | tools/restconf/message/restconfListInstance.py:63 | stripping leaves nothing exactly when the text is blank |
| Text.StripExactlyWhen | tools/restconf/message/restconfDataResource.py:197 | stripping cuts exactly the white space at both ends |
| Text.InSpaces | tools/restconf/message/restconfListInstance.py:63 | white space is space, tab, line feed, vertical tab, form feed and carriage return |
| Text.LowerSameExactlyWhen | tools/mockDevice/yinFile.py:191 | two texts have the same lower-case form exactly when they differ in the case of letters only |
| Text.LowerMeaning | protocols/restconf/api/src/main/java/org/onosproject/restconf/RestconfMediaType.java:103 | the lower-case form differs from the text in case only and holds no upper-case letter |

## Left out

- DataHelpers.DataHelper.SetModified: does not model a parent that is reassigned after construction, which the source never does.
- DataHelpers.EditAll: a client that makes a run of calls, like MockDevice.Serve and MockDevice.BuildAndEdit; the repository has no caller of `set_modified` yet.
- Devices.DefaultRestconfDevice.IsReachable: the socket test itself is a parameter.
- ProviderConfig.DeviceOf: the conversion of JSON members of another type to text, number or flag is that of the JSON library.
- Parsing and printing of media types: delegated to a library.
- The generated model classes, Flask routes, XRD and HTTP traffic, dynamic imports, file reading and argument parsing: input and output.
- The actions of the individual states (`State` and its subclasses): bodies still to be written; only the table step is modelled.
- `RestconfUrl` and its subclasses: query parsing is not implemented there.
- The rule that an identifier must not start with "xml": the code switches it off.
- The ONOS services, sessions, streams, listeners, drivers and the command line: stubs over interfaces that are not part of this model.
