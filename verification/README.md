# Verified model of the fty-asset core

fty-asset keeps the assets of a data center: a forest of locations and devices
in one table, the power links between devices in a second one, and extended
attributes in a third. This project models the code that has to put these
tables in order and keep them in order, in Dafny, and proves what that code
achieves on every input.

`dafny verify dfyconfig.toml` checks everything.

| file | what it models |
|---|---|
| `Sequences.dfy`, `Forest.dfy` | lists without repetitions; parent maps, depth, ancestors |
| `AssetModel.dfy`, `ExtMapSync.dfy` | the asset object, its extended attributes and their dirty flags |
| `Storage.dfy` | the server's tables by name: a class whose methods are the storage calls |
| `RestoreTree.dfy`, `Restore.dfy`, `Backup.dfy` | the restore order (Warshall's closure and a sort), the two restore loops, save and restore |
| `SubTree.dfy`, `DeleteList.dfy` | the server's deletion: explicit-stack walk, depth comparator, guarded deletion loop |
| `ElementDb.dfy`, `ManagerDelete.dfy` | the manager's tables by id; choice, graph and recursion of a batch deletion |
| `TotalPower.dfy` | the frontier search for the first metering device of every power chain |
| `Export.dfy` | the order of the CSV rows |
| `RackPlacement.dfy` | the rack bitmap, runs of placements, free units |
| `InventoryCache.dfy` | the cache in front of the inventory writer |
| `NormName.dfy` | shortened names that do not clash |

Code that changes state is modelled as methods and classes (the tables, the
delete batch, the exporter, the asset object, the inventory); each method is
tied to a function or predicate of the old state, and the lemmas beside it say
what that means over whole runs.

## Where the code does less than one may expect

Each of these is part of a proved contract that says exactly when the code does
what is expected of it; lemmas give inputs on which it does not.

* **restoreAssets** ends early when an insert fails: `restore` throws a C
  string (server/src/asset/asset.cc:445), and no handler on the way catches
  one. It runs to its end if `Completes` holds (every new asset is well formed,
  of a known type, and its parent is stored or comes along), and for distinct
  names only then: `Restore.RestoreAssets`, `Restore.OrphanDoesNotComplete`.
* **remove** deactivates an active asset before its transaction, and a rollback
  does not undo that. A refused asset turns nonactive exactly if it is active,
  not a device, not the rack controller, and neither a parent nor a link source:
  `DeleteList.Remove`, `DeleteList.LastDataCenterIsDeactivated`.
* **deleteList** leaves its loop through an exception (line 862 is outside the
  `try`) exactly if a requested asset, or one of its ancestors in a recursive
  deletion, was requested before and the asset does not survive:
  `DeleteList.DeleteList` with `TripsOver`, `DeleteList.RepeatedRequestTrips`.
  `deleteAll` never trips.
* **The guard on the last data center** refuses every container, not only data
  centers, when no data center is stored; when all stored ones are requested it
  keeps one of least depth, and with it everything above: `IsKept`.
* **The batch deletion of the manager** meets a RESTRICT key, or leaves a row to
  the cascade, in every run without a refusal unless the batch is safe; a safe
  batch never does. Safe means that children and link destinations of the chosen
  elements are chosen too and links lead to elements whose deletion drops them.
  In a safe batch one refused element holds back all from which it is reached
  through children and links, and all else goes:
  `ManagerDelete.DeleteBatch` with `IsSafe` and `IsHeldBack`,
  `ManagerDelete.UnsafeBatch`, `ManagerDelete.RejectedChildRestricts`.
* **update** writes the status in memory, not the stored one, so a device whose
  license was granted but whose activation failed is active after the second
  loop of a restore: `Restore.HasSavedFields`.
* **total_power_v2** does not end on a loop of devices without a meter that
  can be reached from the border, and ends on everything else:
  `TotalPower.DrainsUnlessLooped`, `TotalPower.LoopNeverDrains`.
* **exportRow** recurses for ever exactly if children and power sources lead back
  to an element, as for a device powered by the device it sits in:
  `Export.EndsIffRanked`, `Export.HostAsSourceNeverEnds`.
* **tryToPlaceAsset** computes `loc + size - 1` in 32 bits. When that
  overflows the loop checks nothing and the placement is accepted
  (`RackPlacement.OverflowIsAccepted`). Runs of placements keep the rack tidy
  exactly as long as no placement overflows (`RackPlacement.RunsStayTidy`). A
  child with only one of its two attributes makes the call throw.
* **free_u_size** takes the -1 of a failed size query for a size
  (`RackPlacement.FreeUSize`), so for an empty rack its answer hangs on what the
  query for no assets at all does: the whole size if it fails, -1 if it finds
  nothing (`RackPlacement.FreeUSizeOfRack`).
* **normName** is free of clashes exactly for those numbers whose name its own
  query would select (`NormName.FreeIffSelected`): those up to 99 without a
  backslash (`NormName.UpTo99IsFree`), and for plain names no others
  (`NormName.HundredsMayClash`).

The inventory cache agrees with the plain writer as long as each attribute of
each device keeps its read-only flag (`InventoryCache.RunsAgree`), which holds for
its one caller (`InventoryCache.ActorRunsAgree`). The rule of the writer without a
cache for that flag differs at `ip.1` (`InventoryCache.WritersPartAtIp`).

## Model

| member | source | states |
|---|---|---|
| AssetModel.TypesAreApart | server/src/asset/asset.cc:232-240 | the eleven virtual types, and that no device, group or container type is one |
| ExtMapSync.AssetObject.SetExtEntry | lib/src/fty_asset_dto.cc:418-428 | setting value and flag one after the other marks an entry dirty exactly if one of them changed, and a new one if it is not the default |
| ExtMapSync.AssetObject.LoadExtMap | server/src/asset/asset-db.cc:108-145 | after a load the object holds one clean entry for each stored attribute and nothing else |
| ExtMapSync.DirtyWriteIsFullWrite | server/src/asset/asset-db.cc:1253-1399 | for an object in sync with any table, writing the dirty entries leaves the same table as writing everything, untouched empty entries of other writers included |
| ExtMapSync.StepKeepsSync | server/src/asset/asset-db.cc:1253-1399 | loading, setting and saving (also a save that is rolled back) keep clean entries equal to the table |
| ExtMapSync.RunsStayInSync | lib/src/fty_asset_dto.cc:781-850 | over every run of loads, sets and saves an entry not marked updated agrees with the table |
| ExtMapSync.SaveThenLoad | server/src/asset/asset-db.cc:108-145 | after any run on any table, saving and loading gives the object's own entries back, clean, without the empty ones that are not in the table |
| ExtMapSync.OnlyChangesAreDirty | lib/src/fty_asset_dto.cc:418-428 | setting an entry to what it is changes nothing, not even its mark; any change marks it |
| ExtMapSync.LastValueWins | lib/src/fty_asset_dto.cc:418-428 | after a save the table holds the value set last, a long name as it is shortened; and an empty value only if it was there and setting it changed nothing |
| Storage.SaveEntries | server/src/asset/asset-db.cc:1253-1399 | entry by entry: an unmarked one leaves its row alone, a marked empty one erases it, a marked name of more than 50 characters is stored shortened, any other marked one as it is; it fails exactly when such a name cannot be shortened |
| Storage.Db.SaveExtMap | server/src/asset/asset-db.cc:1253-1399 | the same on this asset's attributes; nothing else changes, and nothing at all unless all can be saved |
| Storage.SavedEntryByEntry | server/src/asset/asset-db.cc:1302-1318 | the map a save leaves has at each key what the four cases say, and the only obstacle is a long name without a short form |
| Storage.WrittenNamesAreShort | server/src/asset/asset-db.cc:1310-1318 | if no short form has more than 50 characters, no save writes a name of more |
| Storage.Db.SaveLinkedAssets | server/src/asset/asset-db.cc:614-692 | the stored links to the asset become the multiset in memory, for any two multisets; links to others stay; it fails exactly when a source is not stored |
| Storage.Db.KeepOrSave | server/src/asset/asset-db.cc:669-683 | one link of the asset: an equal stored link that is still to be removed is kept, otherwise one more is stored |
| Storage.Db.RemoveLinks | server/src/asset/asset-db.cc:685-691 | one row goes for each entry, duplicates counted |
| Storage.Db.SelectLinksTo | server/src/asset/asset-db.cc:558-612 | every link to the asset as often as it is stored |
| Storage.Db.SaveLink | server/src/asset/asset-db.cc:726-773 | one more link, if its source exists |
| Storage.Db.RemoveLink | server/src/asset/asset-db.cc:775-822 | one link with the same four fields goes, if there is one |
| Storage.Db.Insert | server/src/asset/asset-db.cc:1121-1194 | when an insert works, and the row it adds field by field: never active, with an empty tag |
| Storage.Db.UpdateRow | server/src/asset/asset-db.cc:1030-1119 | when an update works (the parent exists and is not the asset itself); parent, status, priority, tag and secondary id become those of the asset, type, subtype and attributes stay |
| Storage.Db.RemoveAsset | server/src/asset/asset-db.cc:928-953 | the row goes exactly when no key refers to it |
| Storage.WithoutKeepsOrder | server/src/asset/asset-db.cc:928-953 | the rows that stay keep their order |
| Storage.Db.GetChildren | server/src/asset/asset-db.cc:147-183 | the rows with this parent, in id order |
| Storage.Db.HasLinkedAssets | server/src/asset/asset-db.cc:694-724 | whether the asset is the source of a link |
| Storage.Db.IsLastDataCenter | server/src/asset/asset-db.cc:836-872 | whether no other data center is stored |
| RestoreTree.DirectChildren | server/src/asset-server.cc:950-958 | each node lists its direct children in backup order; parents outside the backup get a node too |
| RestoreTree.InheritFrom | server/src/asset-server.cc:961-976 | the inner loop in place: every node that lists the asset takes over its list, once |
| RestoreTree.OneMoreInnerAsset | server/src/asset-server.cc:960-977 | Warshall's step: opening one more inner asset adds exactly the paths through it |
| RestoreTree.NewPathsAreNew | server/src/asset-server.cc:960-977 | in a forest the paths through the new inner asset end at names not listed yet, so no name is listed twice |
| RestoreTree.InheritKeepsClosure | server/src/asset-server.cc:960-977 | every list holds exactly the assets below its owner on paths through the processed assets, each once |
| RestoreTree.InheritKeepsDominance | server/src/asset-server.cc:960-977 | a parent's list contains each processed child and all that child lists, counted with repetitions |
| RestoreTree.AncestorMatrix | server/src/asset-server.cc:950-977 | after both loops each node lists exactly its strict descendants, each once; a parent's list is strictly longer than a child's (the latter without assuming distinct names) |
| RestoreTree.BuildRestoreTree | server/src/asset-server.cc:948-982 | a permutation of the backup with every parent before all its children |
| Restore.RestoreAsset | server/src/asset/asset.cc:425-456 | all or nothing; an existing asset is left alone, a failed insert escapes |
| Restore.Activate | server/src/asset/asset.cc:513-533 | devices follow the licensing answer, everything else turns active |
| Restore.UpdateAsset | server/src/asset/asset.cc:396-423 | all or nothing; when it works row, attributes and links are the object's |
| Restore.CreateOne | server/src/asset-server.cc:1005-1038 | one turn of the first loop: what is stored, what is in memory, and when it escapes |
| Restore.RestorableInTurn | server/src/asset-server.cc:1003-1038 | in a parents-first order the success of each insert is decided by the tables before the run and the backup alone, also when names repeat |
| Restore.CreateAll | server/src/asset-server.cc:1005-1038 | the first loop escapes only if some new asset has no parent stored or coming along, is malformed or of an unknown type, and for distinct names exactly then |
| Restore.SaveAll | server/src/asset-server.cc:1040-1048 | the second loop: no row or link outside the list changes, and for distinct names each asset is updated with all its links or left as it was |
| Restore.RestoreAssets | server/src/asset-server.cc:984-1049 | rejects newer versions untouched; ends normally if `Completes`, and then the admitted assets are stored and nothing outside the backup has changed; for distinct names only if `Completes`, and with every asset as saved, field by field; when it ends early it has only added rows of the backup; the foreign keys hold in any case |
| Restore.RestoredFieldwise | server/src/asset-server.cc:1003-1048 | after a completed restore an asset that can be updated has the saved parent, priority, tag, secondary id, attributes and status (nonactive if it is an active device without license), also if it was stored before with others; type and subtype of a stored one stay; what cannot be updated stays as it was stored or inserted |
| Restore.UpdatableIs | server/src/asset/asset.cc:396-423 | update() works for a saved asset exactly if its parent and link sources are stored, it is not its own parent, and a long changed name can be shortened |
| Restore.OrphanDoesNotComplete | server/src/asset/asset.cc:442-446 | a backup of one asset whose parent is neither stored nor saved makes the restore end early |
| Backup.SrrRoundTrip | server/src/asset/asset.cc:590-739 | an asset read back from its saved form is the same but for the dirty flags |
| Backup.EmptyOutletsAreNotSaved | server/src/asset/asset.cc:604-615 | an outlet has a member in the saved form exactly if it has a name |
| Backup.LoadAsset | server/src/asset/asset.cc:751-756 | the object describes the stored row, attributes and links |
| Backup.SaveAssets | server/src/asset-server.cc:919-946 | the saved form of every stored asset but the rack controller and, unless asked for, virtual ones |
| Backup.NothingForgotten | server/src/asset-server.cc:928-943 | by type: every device, group and container but the rack controller is in the backup, everything is when virtual assets are asked for, and nothing of the eleven virtual types is otherwise |
| Backup.BackupCompletes | server/src/asset-server.cc:984-1049 | for a saved set closed under parents no insert fails |
| Backup.AssetComesBack | server/src/asset/asset.cc:396-456 | row (tag and secondary id too), attributes and links of one asset after insert and update equal the saved ones, but for the time stamps, empty attributes and a refused activation |
| Backup.RestoreIsIdentity | server/src/asset-server.cc:984-1049 | restoring a saved set closed under parents and link sources gives it back and changes nothing else |
| Backup.SaveThenRestore | server/src/asset-server.cc:919-1049 | saving one store and restoring into another ends normally and reproduces the saved assets there, if no active device is refused or the caller takes it nonactive |
| SubTree.AddSubTree | server/src/asset/asset.cc:758-794 | the explicit stack ends and appends, in the order of the recursive walk, exactly what is not on the list yet |
| SubTree.PreorderVisits | server/src/asset/asset.cc:758-794 | the recursive walk visits the subtrees of the remaining children, each asset once |
| SubTree.DescendantsOnce | server/src/asset/asset.cc:758-794 | the walk below an asset visits exactly its strict descendants, each once |
| SubTree.AddMissingIs | server/src/asset/asset.cc:758-794 | appending keeps the list's beginning, adds exactly the missing names and no repetition |
| DeleteList.CollectToDelete | server/src/asset/asset.cc:798-817 | requested assets are appended without a check, those below them only if missing; unknown and skipped ones are left out |
| DeleteList.OnlyVirtualIsSkipped | server/src/asset/asset.cc:802-809 | no requested device, group or container is left out whatever the option says, and without it no virtual asset is taken for its own sake |
| DeleteList.ToDeleteIs | server/src/asset/asset.cc:802-817 | what is on the list, and that it has no repetition exactly if no request repeats or follows one of its ancestors |
| DeleteList.IsAnyParent | server/src/asset/asset.cc:819-848 | whichever branch finds the common ancestor, the answer is whether the left asset is deeper: a strict weak order |
| DeleteList.SortByDepth | server/src/asset/asset.cc:850-853 | sorting with it puts every descendant before its ancestors |
| DeleteList.Remove | server/src/asset/asset.cc:247-311 | when an asset can be removed, for each type; a refused one keeps its row and links, and turns nonactive exactly if it is active, no device, not the rack controller, no parent and no link source |
| DeleteList.GuardHoldsContainers | server/src/asset/asset.cc:276-279 | what removeLastDC changes: without it a data center, room, row or rack needs another data center beside it, and nothing else does |
| DeleteList.Deactivate | server/src/asset/asset.cc:535-555 | what deactivation writes before the transaction: a device follows the answer, anything else turns nonactive at once |
| DeleteList.LastDataCenterIsDeactivated | server/src/asset/asset.cc:268-279 | an active, childless last data center is refused and is nonactive afterwards |
| DeleteList.RemoveKeepsDataCenter | server/src/asset/asset.cc:276-279 | without removeLastDC a store with a data center keeps one |
| DeleteList.SurvivorStays | server/src/asset/asset.cc:860-878 | an asset that is stuck or kept by the guard, or above one that is, cannot be removed at its turn |
| DeleteList.OthersGo | server/src/asset/asset.cc:860-878 | every other asset can be removed at its turn: its children and links are gone by then and the guard lets it pass |
| DeleteList.StatusInTurn | server/src/asset/asset.cc:268-271 | whether the refused turn of a survivor changes its status is decided by the tables at the start |
| DeleteList.KeptDataCenter | server/src/asset/asset.cc:276-279 | when no data center would survive otherwise, the guard keeps the one that comes up last, which lies highest |
| DeleteList.RemoveAll | server/src/asset/asset.cc:860-878 | the loop, for any options: the exact rows and links it leaves also when it escapes, what is reported, and that it escapes exactly when an asset is named twice and does not survive |
| DeleteList.TwiceIfRequestedAgain | server/src/asset/asset.cc:802-817 | an asset is on the list twice exactly if it is requested after itself or after one of its ancestors |
| DeleteList.HitsAreTrips | server/src/asset/asset.cc:802-878 | the loop trips exactly if the requests say so, whatever the sort does with equal depths |
| DeleteList.TripsUnlessSeparate | server/src/asset/asset.cc:802-817 | when nothing requested survives, that is exactly if a request repeats or follows one of its ancestors |
| DeleteList.RepeatedRequestTrips | server/src/asset/asset.cc:860-862 | the same device requested twice |
| DeleteList.DeleteList | server/src/asset/asset.cc:796-881 | for any request and options: who survives (what is stuck: not on the list, the rack controller, the source of a link to what is not on the list, kept by the guard; and all above it), which survivors turn nonactive, the links left, matching reports, when it escapes; the forest and foreign keys hold in any case |
| DeleteList.WhoIsLeft | server/src/asset/asset.cc:796-881 | exactly the survivors are left, and even an escape takes none of them |
| DeleteList.ListAll | server/src/asset/asset-db.cc:1471-1504 | every asset but the rack controller, once |
| DeleteList.SurvivorsStay | server/src/asset/asset.cc:883-887 | for a deletion of everything the survivors are what is skipped, the sources of links into that, and all above them |
| DeleteList.DeleteAll | server/src/asset/asset.cc:883-887 | it never escapes, leaves exactly those, turns only active groups it could not clear nonactive, and reports OK for exactly the assets that are gone |
| DeleteList.WhyItStays | server/src/asset/asset.cc:802-887 | by type: a device, group or container stays only for a child that stays, a link to what is skipped, or as a group that cannot be cleared; without the option every virtual asset stays |
| TotalPower.FindDests | server/src/total_power.cc:103-117 | the devices an asset powers |
| TotalPower.IsPoweringOtherRack | server/src/total_power.cc:130-147 | whether it powers something outside the container |
| TotalPower.InitialBorder | server/src/total_power.cc:221-262 | the devices fed from outside or from nowhere |
| TotalPower.UpdateBorderDevices | server/src/total_power.cc:163-192 | each device is replaced by the in-container devices it powers |
| TotalPower.TakeSmart | server/src/total_power.cc:271-290 | every metering device of the border is reported once, and exactly the others stay |
| TotalPower.SmartIsMeter | server/src/total_power.cc:271-290 | an ePDU meters, a UPS exactly if all it feeds is inside the container, nothing else does |
| TotalPower.FrontierEndsChains | server/src/total_power.cc:270-292 | round k looks at exactly the ends of the chains of k + 1 devices without a meter before their end |
| TotalPower.DrainsUnlessLooped | server/src/total_power.cc:270-292 | the search ends exactly if no loop of devices without a meter can be reached from the border, and then within one round per device |
| TotalPower.LoopNeverDrains | server/src/total_power.cc:270-292 | a border device that feeds two devices feeding each other: it does not end |
| TotalPower.AcyclicDrains | server/src/total_power.cc:270-292 | acyclic links inside the container suffice |
| TotalPower.FoundIsFirstSmart | server/src/total_power.cc:264-293 | what is reported before the frontier is empty are exactly the first metering devices of the chains |
| TotalPower.TotalPowerV2 | server/src/total_power.cc:214-294 | the names returned are exactly those of the metering devices that end a chain from the border along which no earlier device is metering, each as often as there are depths it is reached at; each is an ePDU or a UPS that feeds nothing outside; at most one round per device |
| TotalPower.EveryChainIsMeasured | server/src/total_power.cc:197-201 | every chain that reaches a metering device has a reported one on it, the first |
| TotalPower.EveryDeviceIsFed | server/src/total_power.cc:255-262 | without loops every device hangs on a chain from the border |
| TotalPower.EverySmartDeviceCounts | server/src/total_power.cc:197-201 | so every metering device is reported or fed by a reported one |
| ElementDb.Db.DeleteAssetLinksTo | asset/src/asset-db.cpp:837-852 | exactly the links to the element go |
| ElementDb.Db.DeleteAssetElement | asset/src/asset-db.cpp:1562-1577 | the row goes unless a RESTRICT key refers to it |
| ElementDb.Db.SelectAssetsByParent | asset/src/asset-db.cpp:1598-1620 | the ids with this parent, each once |
| ElementDb.Db.SelectAssetDeviceLinksSrc | asset/src/asset-db.cpp:1624-1645 | the destinations of the links from an element |
| ElementDb.Db.DeleteByKind | asset/src/manager/delete.cpp:298-405 | all or nothing; refused exactly when a child or a link that is not dropped first remains: without children and outgoing links only a container or group that a link leads to is refused |
| ManagerDelete.DeleteAsset | asset/src/manager/delete.cpp:130-212 | the element goes exactly if it is not refused and, once its sensors had their turn, no key holds it; an early refusal changes nothing; a nonactive device without a parent takes the inactive sensors right below it along; every loss is on record |
| ManagerDelete.DeleteSensors | asset/src/manager/delete.cpp:144-154 | of the children exactly inactive sensors go, and all that are not refused and that nothing hangs on; each attempt is on record |
| ManagerDelete.CollectChildren | asset/src/manager/delete.cpp:35-46 | exactly the descendants that are not to be deleted, each once |
| ManagerDelete.CollectLinks | asset/src/manager/delete.cpp:50-59 | exactly the link destinations that are not to be deleted |
| ManagerDelete.MoveSensors | asset/src/manager/delete.cpp:232-244 | splits the children into inactive sensors and the rest |
| ManagerDelete.ChooseOne | asset/src/manager/delete.cpp:220-257 | when an element is accepted, and which sensors it takes along even when it is rejected |
| ManagerDelete.Choose | asset/src/manager/delete.cpp:220-257 | the list holds exactly the accepted elements and the sensors taken along, each once |
| ManagerDelete.SelectionAddsSensors | asset/src/manager/delete.cpp:232-244 | what is listed without being requested are exactly the nonactive sensors below a requested nonactive device without a parent |
| ManagerDelete.BuildGraph | asset/src/manager/delete.cpp:259-283 | each listed element knows its listed children and link destinations |
| ManagerDelete.GraphIsOrdered | asset/src/manager/delete.cpp:259-283 | if children and links never lead back in the tables, they do not in the graph |
| ManagerDelete.NothingHolds | asset/src/manager/delete.cpp:68-78 | with its needs gone no key holds an element of a covering graph |
| ManagerDelete.AttemptIsDecided | asset/src/manager/delete.cpp:62-83 | in a covering graph with steady answers an attempt deletes the element exactly if it is not refused, without a cascade |
| ManagerDelete.LogOneMore | asset/src/manager/delete.cpp:62-83 | a further attempt keeps the order of deletions and that each element is deleted once |
| ManagerDelete.Batch.DeleteAssetRec | asset/src/manager/delete.cpp:62-83 | ends; elements are tried only after all they need is deleted, never again once deleted; a covering graph never meets a RESTRICT key; a failure leaves a record; with steady answers and a covering graph it works exactly if nothing refused is reached, and the record is that of the recursive walk: links, then children, up to the first that fails, then the element |
| ManagerDelete.DeleteListed | asset/src/manager/delete.cpp:285-292 | the same over the whole list, which goes on after a failure, with answers that match |
| ManagerDelete.SafeIsCovering | asset/src/manager/delete.cpp:220-283 | a batch is safe exactly if its graph knows every child and link destination of its elements and links lead to elements whose deletion drops them |
| ManagerDelete.ClosedIsSafe | asset/src/manager/delete.cpp:214-283 | ids closed under children and link destinations are safe, and exactly the requested rows are chosen |
| ManagerDelete.FailureFreeIsCovering | asset/src/manager/delete.cpp:259-292 | a run that deletes all it listed without a failure or a cascade had a covering graph |
| ManagerDelete.AllGone | asset/src/manager/delete.cpp:285-292 | without a failure or a cascade exactly the listed rows are gone |
| ManagerDelete.DeleteBatch | asset/src/manager/delete.cpp:214-295 | for any ids and refusals: no dangling parent or link, a link goes exactly with its destination, only listed elements and inactive sensors go, order and at-most-once. In a safe batch whose refusals do not change from call to call a listed element goes, with the answer true, exactly if no refused one is reached from it through children and links, nothing else goes, and the record is known; without a refusal all listed rows go. A safe batch meets no RESTRICT key, and a run without a refusal meets none, and leaves nothing to the cascade, only if the batch is safe; for closed ids the listed rows are the requested ones |
| ManagerDelete.GraphHoldsBack | asset/src/manager/delete.cpp:259-292 | the graph of a safe batch holds back exactly what the tables say is held back |
| ManagerDelete.DecidedIsOutcome | asset/src/manager/delete.cpp:285-292 | answers and rows left follow from what is held back |
| ManagerDelete.UnrefusedOutcome | asset/src/manager/delete.cpp:285-292 | with nothing refused every answer is true and all that is listed goes |
| ManagerDelete.UnsafeBatch | asset/src/manager/delete.cpp:214-295 | a batch that is not safe, in tables without inactive sensors, fails, and on a RESTRICT key unless an element is refused |
| ManagerDelete.RejectedChildRestricts | asset/src/manager/delete.cpp:248-253 | such a batch: a rack is accepted although its device is rejected |
| Export.RootedIsForest | asset/src/manager/export.cpp:291-305 | elements whose parents lead to the top form a forest closed under parents and under children |
| Export.FindChild | asset/src/manager/export.cpp:293-302 | the next element with this parent, none skipped |
| Export.CreateTree | asset/src/manager/export.cpp:291-305 | ends; the nodes hold exactly the elements below the parent, each once, each under its own parent |
| Export.FindElement | asset/src/manager/export.cpp:307-319 | whether an id is in the tree |
| Export.CollectLinks | asset/src/manager/export.cpp:321-338 | every element's links are exactly its power sources in the export |
| Export.Exporter.ExportRow | asset/src/manager/export.cpp:108-131 | ends; writes rows so that each is written once, after the rows of its power sources and, unless it is called for as a source, after the row of its location; it stops at a row that cannot be written, and only there |
| Export.RowsAreComplete | asset/src/manager/export.cpp:92-98 | when all roots are exported every element has its row |
| Export.ExportCsv | asset/src/manager/export.cpp:67-105 | there is an export exactly if the row of every element whose parents lead to the top can be written; it has one row for each of them, after the rows of all its exported power sources, and after its location unless it is a source itself |
| Export.MadeForExport | asset/src/manager/export.cpp:291-338 | whatever createTree and collectLinks make is a tree whose calls stay inside it |
| Export.EndsIffRanked | asset/src/manager/export.cpp:108-131 | the recursion over all roots ends exactly if neither children nor links lead back |
| Export.HostAsSourceNeverEnds | asset/src/manager/export.cpp:108-131 | a device powered by the device it sits in: no depth of recursion is enough |
| RackPlacement.CoversInterval | asset/src/asset-helpers.cpp:161-168 | the 64-bit loop marks the cells from pos to pos + size - 1 when nothing overflows |
| RackPlacement.WrappedCoversNothing | asset/src/asset-helpers.cpp:161-168 | a child at position 0, or whose end leaves 64 bits, marks no cell |
| RackPlacement.MarkChildren | asset/src/asset-helpers.cpp:142-169 | a cell is marked exactly if another child covers it; throws exactly for a child with one of the two attributes |
| RackPlacement.MarkCells | asset/src/asset-helpers.cpp:164-168 | exactly the cells of the interval that exist are marked |
| RackPlacement.EndOfCheck | asset/src/asset-helpers.cpp:171 | what the 32-bit sum is, with and without overflow |
| RackPlacement.TryToPlaceAsset | asset/src/asset-helpers.cpp:123-183 | each answer and when it is given: accepted exactly if every cell is in the rack and free, or the sum overflows |
| RackPlacement.RoomIsApartness | asset/src/asset-helpers.cpp:142-178 | in a tidy rack the bitmap test is interval arithmetic: inside, and apart from all others |
| RackPlacement.MoveKeepsTidy | asset/src/asset-helpers.cpp:123-183 | an accepted move keeps intervals apart and inside exactly if it does not overflow |
| RackPlacement.OverflowIsAccepted | asset/src/asset-helpers.cpp:171 | an overflowing placement that is accepted |
| RackPlacement.RunsStayTidy | asset/src/asset-helpers.cpp:123-183 | over every run of accepted placements and removals nothing overlaps, exactly as long as no placement overflows |
| RackPlacement.SizesCountCells | asset/src/asset-helpers.cpp:142-169 | the sizes add up to the number of taken cells |
| RackPlacement.SizesFit | asset/src/asset-computed.cpp:50-89 | the sizes never exceed the rack, and the difference is the number of free cells |
| RackPlacement.DevicesUSize | asset/src/asset-computed.cpp:30-45 | the sum of the sizes as int, or -1 |
| RackPlacement.SummandIsSigned | asset/src/asset-computed.cpp:34-37 | a size counts as its 32 bits read with a sign, and all ones not at all |
| RackPlacement.FreeUSize | asset/src/asset-computed.cpp:50-89 | the answer in every case, including the failed queries |
| RackPlacement.FreeUSizeOfRack | asset/src/asset-computed.cpp:50-89 | for a rack that holds just its placed children: the number of free cells; for an empty one its size or -1, as the query for no assets fails or finds nothing |
| InventoryCache.KeyIsInjective | server/src/dbhelpers.cc:266-267 | different attributes have different keys if device names have no colon |
| InventoryCache.PrefixSelectsDevice | server/src/fty_asset_inventory.cc:131-140 | the prefix selects that device's keys and no others |
| InventoryCache.Inventory.InsertOne | server/src/dbhelpers.cc:260-279 | a known value is skipped, any other written and remembered; a failed write is not remembered |
| InventoryCache.Inventory.ProcessInsertInventory | server/src/dbhelpers.cc:242-286 | the table after writing exactly the unknown attributes, in whatever order, and the cache that remembers all of them |
| InventoryCache.Inventory.Vacuum | server/src/fty_asset_inventory.cc:131-140 | exactly the keys with the prefix go |
| InventoryCache.SkippingIsHarmless | server/src/dbhelpers.cc:260-279 | with a true cache, writing the unknown attributes is writing all of them |
| InventoryCache.StepStaysTrue | server/src/fty_asset_inventory.cc:126-140 | every message with steady flags, new device and removed device keeps the cache true |
| InventoryCache.RunsAgree | server/src/dbhelpers.cc:242-286 | over every run in which each attribute of each device keeps its flag, the cached writer leaves the table that writing everything leaves |
| InventoryCache.ActorRunsAgree | server/src/fty_asset_inventory.cc:126-140 | the runs of the inventory actor are such runs |
| InventoryCache.ChangingFlagLies | server/src/dbhelpers.cc:242-286 | without steady flags the third write of three is wrongly skipped |
| InventoryCache.WritersPartAtIp | server/src/dbhelpers.cc:199-210 | cached and uncached writer leave the same table exactly if no ip.1 is written, or without the read-only flag no uuid |
| NormName.Norm | asset/src/asset-helpers.cpp:274-333 | the name returned: unchanged, cut, or cut with one more than the largest selected number |
| NormName.NumberOfIs | asset/src/asset-helpers.cpp:308-320 | a name that ends in a tilde and digits has that number, any other counts as 0 |
| NormName.LeadingZeros | asset/src/asset-helpers.cpp:312-313 | zeros in front do not change a number |
| NormName.LikePercent | asset/src/asset-helpers.cpp:282-303 | a percent sign in a mask stands for any text |
| NormName.LikeLiteral | asset/src/asset-helpers.cpp:282-303 | a mask without special characters matches itself only |
| NormName.BeginningIsLike | asset/src/asset-helpers.cpp:282-303 | a name that begins like the shortened one matches the mask, unless it has a backslash |
| NormName.SuffixedLength | asset/src/asset-helpers.cpp:322-327 | the new name is the beginning that leaves room for the number, and has exactly the allowed length as long as the number has fewer digits than that; beyond that the unsigned length wraps and the whole name is kept |
| NormName.FreeIffSelected | asset/src/asset-helpers.cpp:274-333 | for every name and number: the new name is free in all tables exactly if the query would select it |
| NormName.UpTo99IsFree | asset/src/asset-helpers.cpp:296-303 | numbers up to 99 are free, for names without a backslash |
| NormName.HundredsMayClash | asset/src/asset-helpers.cpp:296-303 | for plain names every number from 100 on may clash |
| NormName.NormedIsUnique | asset/src/asset-helpers.cpp:274-333 | so the name returned has exactly the allowed length and differs from all others when the numbers stay below 99 |
| NormName.HundredMayClash | asset/src/asset-helpers.cpp:299-303 | a table in which the name with 100 is another asset's |
| NormName.BackslashMayClash | asset/src/asset-helpers.cpp:299-303 | a table in which a name with a backslash is another asset's |

## Left out

- Acyclic parents are assumed where the code needs them (`StoredForest`,
  `Acyclic`, `IsUnionRank`): `DB::update` rejects only an asset that is its own
  parent. On a circle of parents `addSubTree`, `isAnyParent` and
  `collectChildren` do not end, and the inner loop of `buildRestoreTree` reads
  a vector while it grows.
- Export.ExportCsv: assumes what makes it end (`Export.EndsIffRanked`). The
  contents of a row are not modelled, only which element it is for.
- DeleteList.DeleteList: when the guard keeps a data center, which of those of
  least depth is left open, as the sort leaves it open.
- DeleteList.Remove: the group and relation tables are not modelled; whether a
  group can be cleared is a parameter (`clearGroup` names a column that is not
  in the schema), and so are the answers to deactivation requests.
- Restore.RestoreAssets: for a name that is saved twice the contract does not say
  which of the two is inserted, as the sort leaves that open. The branch that
  deletes an asset whose activation failed is left out, since `activate` catches
  every failure itself. The licensing answers, the clock and `normName` are
  parameters.
- Restore.RestoreAsset: the transaction that stays open when the asset exists
  already is not modelled.
- Storage.Db.Insert: assumes that binding a name the statement does not have
  (the tag) is ignored.
- Storage.Db.RemoveAsset: the keys of the group and relation tables are left out.
- Storage.Db.SaveLinkedAssets: the ext attributes of a link are left out.
- Storage.Db.SaveLink: the ext attributes of a link are left out.
- Backup.SrrRoundTrip: the ext attributes of a link are left out.
- Backup.LoadAsset: the ext attributes of a link are left out.
- ElementDb.Db.DeleteByKind: the group and monitor tables are left out, and the
  count of data centers is one of the refusals of `deleteAsset`.
- ManagerDelete.DeleteAsset: the reasons to refuse an element before it comes to
  the tables (rack controller, last feed, logical asset, deactivation, last
  data center, group tables) are a parameter that answers for each element and
  call; shared pointers are ids into a map, the isDeleted flags a set.
- ManagerDelete.DeleteBatch: whether an unsafe batch that leaves an inactive sensor
  to the cascade fails as well is not said; that hangs on the order of the ids.
  What exactly goes is said for refusals that do not change from call to call.
- RackPlacement.FreeUSize: sums are assumed to stay within an int.
- InventoryCache.RunsAgree: a device name is not used again before its delete
  message has been handled, and no other writer touches these attributes.
- NormName.FreeIffSelected: collations (case, trailing blanks) and the limits of
  the number conversion are left out.
- Loops over hash tables, maps and query results visit their elements in any
  order; `std::sort` is any sort that meets its contract (an insertion sort).
- Messaging, notifications, CAM mappings, activation requests, JSON and CSV
  text, SQL text and connections are not part of this model.
- Getters, setters, type tables and the field checks of the CSV import would
  only add easy members.
