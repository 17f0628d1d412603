# ampart, modelled and verified in Dafny

ampart rewrites the partition tables of Amlogic eMMC devices in place. Two tables describe the same storage: the eMMC
partition table (EPT) in the `reserved` partition, and the `partitions` node of the device trees (DTBs) beside it.
ampart computes a new layout, moves live data between the overlapping old and new layouts without any spare storage, and
splices a new `partitions` node into each flattened device tree.

`dafny verify dfyconfig.toml` checks the project. Methods follow the C functions statement by statement, with the same
branches, error codes and constants, over arrays, buffers and classes; lemmas state what a user relies on.

| part | files | what is proved |
|---|---|---|
| block migration | `Migrate`, `Plan`, `Safety`, `Losses`, `EndToEnd` | planning and then migrating loses no byte of any partition, through any mix of chains and cycles of moves; exactly between which tables data can be kept |
| device tree | `Fdt`, `Walk`, `Phandle`, `StringBlock`, `Partitions`, `NodeMeaning`, `NodeParser`, `Compose`, `RoundTrip`, `Splice`, `PhandleSafety`, `NewPhandles`, `LeastPhandles`, `Target`, `Dtb`, `Implement`, `RemoveNode`, `Failures` | the walkers agree with an abstract tree; which partitions nodes parse, and to what, in whatever order their properties stand; a composed node parses back to its list; splicing yields the serialisation of the old tree with that one child changed; exactly when phandles are distinct afterwards; the name of a DTB survives; removing restores |
| table layout | `Ept`, `Table`, `Layout` | EPT to device tree to EPT is the identity; built tables are pedantic, disjoint and within the capacity; a table carried to a larger capacity through the device tree grows at its end alone |
| packing | `Greedy`, `Packing`, `Create` | the gap packer loses nothing and packs maximally; table creation meets its preconditions; what the definers make of a packed table |
| editing | `Edit` | what each edit command does and when it fails; runs as functional list operations; which of them keep every partition within the capacity |
| text | `Literal`, `Parg`, `Snapshot` | a snapshot, given back as arguments, clones the table |
| container | `MultiDtb` | packing several DTBs and reading them back |

Conventions. A byte of a device tree or a name is a `char`, so names are strings and one character is one byte. A name
is the text before its first NUL, of at most 15 characters. 64-bit sums that C lets wrap around are `Add64` and `Sub64`;
where a theorem excludes a wrap it says so. `ghost` parameters tell a walker which abstract node it stands on. C's error
paths that only a failed allocation can take are not modelled.

## What the code promises and does not keep

Each of these is a proved statement with its exact condition.

- Putting a list into a DTB is meant to leave every node with a phandle of its own. ampart takes for phandles the
  properties at one name offset each, the first match of "phandle" and of "linux,phandle" in the strings block; a reader
  of the tree goes by the name, and the first match of "phandle" may be the end of "linux,phandle". At the two looked-up
  offsets the phandles are always distinct. By name they are if and only if the rest of the tree has distinct ones and
  none of them is among the least phandles that were not collected (`NewPhandles.NewTreeDistinct`,
  `Implement.ImplementPartitions`); this holds whenever every property of the rest that reads as a phandle has one of
  the two offsets (`Implement.FoundStaysDistinct`). For a small DTB that is loaded without an error and whose strings
  block begins with "linux,phandle" it fails: whatever list is put in, a phandle is given away twice
  (`Failures.DuplicatePhandle`).
- Migration is meant to keep every selected partition of both tables, moved or not. Whoever moves the data, that is
  possible on every disk if and only if no byte of the new layout is to be two old bytes at once
  (`Losses.KeepableIffNoClash`); for a sound old table and unique new names, if and only if no two selected partitions
  have a common place for what they keep (`Losses.KeepsDataIffApart`), and then ampart does it (`Safety.MigrateTables`).
  Nobody looks whether it is so. For two small tables that `ept_valid_table` accepts, a partition moves onto one that
  stays: the plan is made and carried out without an error, and data is lost (`Losses.MigrateOnStaying`). For two others
  two partitions that move meet, and the plan that is made cannot be carried out without loss (`Losses.PlanOnTop`).
- An empty partition that stands where its table ends, and whose offset changes, makes the planner refuse the whole
  table (`Plan.RefusedForEmpty`, `Safety.MigrateTables`); two sound tables that are refused are in
  `Losses.SoundTablesAreRefused`.
- The clamps of `ept_migrate_plan` (src/ept.c:968-984), one of which subtracts the wrong operand, are never reached.
- A size of the device tree that is close to 2^64 but is not -1 wraps around and is not cut to the capacity
  (`Layout.TableEndsWithinIff`, `Layout.HugeSizeIsNotCut`); the same for edit commands (`Edit.RunsKeepWithinIff`,
  `Edit.SetSizeCanEscape`).
- Free space between the structure block and the strings block of a DTB is not carried over to the new DTB, but counted
  in its header: the new header finds the strings if and only if there is none (`Implement.BuiltIsImplemented`). If it
  is as long as the new strings block, the new header points behind all strings (`Implement.WideGapLosesStrings`), not
  even the name of the DTB is found, and the self-check refuses every list (`Implement.ImplementPartitions`); into one
  and the same DTB every list goes without free space (`Failures.DuplicatePhandle`) and none with 512 bytes of it
  (`Failures.WideGapIsRefused`).
- A last partition that reaches the end of its table is meant to reach the end at every capacity. It does, but for a
  default `env` that ends the table: it equals the reference partition, is therefore not listed in the device tree, and
  stays within its default size (`Layout.AtLargerCapacity`).
- A snapshot of exactly 32 device tree partitions cannot be cloned (`Snapshot.DtsSnapshotClones`).
- A SoC, platform or variant name survives the container if and only if it fits the field and has no space
  (`MultiDtb.PackedNamesReadBack`).

## Model

| member | source | states |
|---|---|---|
| Migrate.MigrateHelper.Migrate | src/io.c:534-575 | with in-range targets no two of which coincide, the run succeeds exactly if no block is its own target; then every pending block is at its target, all other blocks and the rest of the disk are unchanged, and nothing is pending |
| Migrate.MigrateHelper.MigrateRecursive | src/io.c:498-532 | following a chain or cycle keeps the run invariant: arrived blocks stay, and every pending block outside the two swapped buffers still has its original content; it ends because fewer blocks are pending |
| Migrate.Step | src/io.c:508-530 | one hop, overwriting a block that may itself be pending, preserves the run invariant if the buffer saved that block |
| Migrate.Finish | src/io.c:556-574 | a run with nothing pending has delivered everything, and met no self-target |
| Migrate.PreservableIffInjective | src/io.c:534-575 | some final disk satisfies the promise for every initial disk if and only if no two pending blocks share a target |
| Plan.GetMinimumBlock | src/ept.c:829-868 | the halving loop ends with the greatest power of two up to 4 MiB that divides every offset and size |
| Plan.PlanBlockDivides | src/ept.c:916-931 | the smaller block of the two tables divides both tables and both capacities, so the capacity error is never reached |
| Plan.MigratePlan | src/ept.c:900-1002 | when a plan is made, and that it sends exactly the blocks of the selected partitions that moved, each to the same block of its new place |
| Plan.PlanMove | src/ept.c:961-991 | a partition that moves is planned in full or refused; neither clamp is reached |
| Plan.RefusedForEmpty | src/ept.c:939-965 | only a partition of size 0 at the end of its table makes the planner refuse |
| Safety.PlanIsPermutation | src/ept.c:955-995 | for a sound old table and unique new names, between which no two moving partitions meet, the plan has in-range, pairwise different targets and no self-target |
| Safety.WellLaidOutIsMigratable | src/ept.c:900-1002 | no two partitions have a common place in a new table without overlaps |
| Safety.MigrateTables | src/ept.c:900-1002 | planning and migrating end to end: exactly when it refuses; bytes nothing was moved to are unchanged; and if no two selected partitions have a common place for what they keep, each of them, moved or not, has at its new offset the first min(old size, new size) bytes it had |
| EndToEnd.BuiltIsWellLaidOut | src/ept.c:388-431 | tables built from a device tree meet what migration assumes |
| Safety.PlanCollides | src/ept.c:955-995 | for a sound old table and unique new names, the plan sends two blocks to one place if and only if two partitions that move get extents with a byte in common |
| Losses.PlanArrivesIffApart | src/ept.c:955-995 | all pending blocks of the plan can arrive on every disk if and only if there are no such two partitions |
| Losses.KeepableIffNoClash | src/ept.c:900-1002 | for any two tables that do not wrap: some final disk keeps every selected partition, moved or not, for every initial disk, if and only if no byte of the new layout is to be two different old bytes |
| Losses.KeepsDataIffApart | src/ept.c:900-1002 | for a sound old table and unique new names: the same if and only if no two selected partitions, moved or not, have a common place for what they keep |
| Losses.MigrateOnStaying | src/ept.c:900-1002 | two accepted tables where a partition moves onto one that stays: planning and migrating succeeds and does not keep the data of both unless they begin alike |
| Losses.PlanOnTop | src/ept.c:900-1002 | two tables with legal and unique names, the new one with overlaps, for which the planner succeeds with a plan that loses data on some disk |
| Losses.SoundTablesAreRefused | src/ept.c:961-965 | two sound tables that the planner refuses |
| EndToEnd.PackedIsWellLaidOut | src/ept.c:1246-1342 | so do packed tables: disjoint and unique names; if the offset of `reserved` and all sizes add up to less than 2^64, nothing wraps and the table ends within that sum |
| EndToEnd.CreatedIsWellLaidOut | src/ept.c:1344-1453 | so do created tables, if the essential partitions fit into the capacity and every definer puts its partition behind the last one, at its end or relative to it; they end within the capacity |
| Walk.SkipNode | src/dts.c:150-189 | on a serialised node the token loop returns the exact length of the node, or 0 exactly if the node has more tokens than the limit allows |
| Walk.GetNode | src/dts.c:191-240 | the same length, and the target is where the last node of that path is in the abstract tree |
| Walk.FindIsLookup | src/dts.c:191-240 | the search succeeds exactly on paths of the abstract tree, and the position it returns holds that very node |
| Phandle.PhandleList.GetPhandles | src/dts.c:798-841 | the same length again; the list is what recording all phandle properties in tree order gives, and 0 is returned if one is malformed, too large, or already another node's |
| Phandle.RecordedExactly | src/dts.c:755-796 | after the walk a node owns a phandle if and only if one of its properties claims it; growing the list keeps all entries |
| Phandle.PhandleList.Realloc | src/dts.c:735-752 | doubling keeps the entries and fails exactly when the 32-bit count would overflow |
| Phandle.PhandleList.Finish | src/dts.c:844-888 | succeeds exactly if phandle 0 is free and another one is taken; its other errors are never reached; least and greatest phandle |
| Phandle.PhandleList.Drop | src/dts.c:1083-1115 | frees exactly the given phandles |
| Phandle.PhandleList.Assign | src/dts.c:1117-1137 | returns the least free phandle from 1 on, doubling the list at most once, and fails only if all are taken and it cannot grow |
| Phandle.CollectedIsEnough | src/dts.c:1117-1137 | a tree that fits into memory leaves phandles for a whole new node, so assigning never fails |
| StringBlock.Helper.AppendSafely | src/stringblock.c:75-86 | returns the first match of the string, appending it if there is none; an empty string is never appended |
| StringBlock.FindString | src/stringblock.c:15-35 | the scan returns the first match, also in the tail of a longer string |
| StringBlock.InternAllIsStable | src/stringblock.c:15-86 | after any sequence of appends to a terminated block the old block is a prefix, every earlier lookup is unchanged, and every returned offset reads back its string |
| NodeParser.GetPartitionsFromNode | src/dts.c:443-654 | the flat token loop computes what recursion over the abstract node gives, error codes included; it succeeds exactly if the node has the name and every property and every child is as the next row says, and then yields what that row says; the count of partitions it leaves, on failure too, is not 0 exactly if parsing gets to a node |
| NodeMeaning.ParseMeans | src/dts.c:443-602 | without regard to the order of properties: a node parses if and only if it has at most 32 children, none of them with children of its own, a longer name than 15, or two contradicting phandles, and every property has a known name and the right length, and pname the text of the node's name; then size, mask and both phandles of partition i are the values of the last such property in child i, or 0, and parts, part-N and the root's phandles those of the last such property in the node |
| NodeMeaning.ParseComplains | src/dts.c:443-654 | what each of the other error codes says of the node |
| Compose.ComposePartitionsNode | src/dts.c:1152-1251 | which offsets and phandles are chosen, that the phandles are fresh and different with no free one left below them, and every byte written; the predicted length is the length written |
| Compose.PredictedLength | src/dts.c:1188-1203 | the length formula equals the sum of the lengths of the parts |
| Compose.SerRoot | src/dts.c:1206-1249 | the bytes written are the serialisation of the abstract node |
| RoundTrip.ComposeParseSort | src/dts.c:1152-1251 | composing a list, parsing and sorting the node gives back the list: names, 64-bit sizes, masks and order, for every list of up to 32 and every terminated strings block, with or without linux,phandle |
| RoundTrip.ParseComposed | src/dts.c:604-654 | the parser accepts a composed node and yields its partitions, phandles and part-N records |
| RoundTrip.SortPartitions | src/dts.c:656-688 | the sort is a permutation, leaves an ordered list alone, and brings every list whose records are all there into record order |
| RoundTrip.InternedNamesMatch | src/dts.c:410-441 | the offsets the parser looks up are the ones the composer used, whatever the strings block held before |
| Splice.ReplaceSplices | src/dtb.c:787-819 | replacing or cutting out the bytes of a child serialises the tree with that child replaced or removed |
| Splice.AppendSplices | src/dtb.c:793-813 | inserting bytes before the last END_NODE serialises the tree with one more child |
| Splice.ImplementThenRemove | src/dtb.c:915-975 | removing what was put in gives the old tree without its partitions node |
| PhandleSafety.UniqueIsDistinct | src/dts.c:755-796 | a tree that was collected without error has pairwise distinct phandles among the properties at the two looked-up name offsets |
| PhandleSafety.ParsedPhandles | src/dts.c:604-654 | parsing only records phandles that the node and its children claim, so dropping frees nobody else's |
| NewPhandles.HandedOutIsNextFree | src/dts.c:1117-1137 | assigning one after another hands out exactly the n least free phandles |
| NewPhandles.NewTreeDistinct | src/dts.c:1083-1137 | for any set of name offsets taken to mark a phandle: the new tree has distinct phandles if and only if the old one without its partitions node has, and none of these is one of the least free ones in the collected list |
| LeastPhandles.OccupiedIsOutside | src/dts.c:1083-1115 | once the old node's phandles are freed, exactly those are taken that something outside it claims, if each part of the old node claims no other phandle than that of its last "phandle" property |
| LeastPhandles.NewPhandlesAreLeast | src/dts.c:1083-1137 | the new phandles are then the n least from 1 on that nothing outside the old node claims |
| NewPhandles.CollectedStaysTaken | src/dts.c:1083-1115 | what was collected outside the old partitions node is still taken after the node's own phandles are freed |
| NewPhandles.FoundIsDistinct | src/dts.c:755-796 | if every property that reads as a phandle has a looked-up offset, what is distinct to the walker is distinct by name |
| NewPhandles.InternAllNames | src/stringblock.c:42-86 | appending short names other than "phandle" makes no further offset read as a phandle name |
| Dtb.GetPartitionsNode | src/dts.c:349-408 | the node is found exactly if the root has such a child |
| Dtb.GetPartitions | src/dtb.c:170-199 | exactly which DTBs have partitions; the list is what the node means, in the order of its records if these are complete, and in the order of its children if there are more or fewer records than children; when a count of partitions is left on failure |
| Target.GetProperty | src/dts.c:242-277 | the value of the first property with that name offset before the first child of the node, or failure if there is none |
| Target.GetPropertyString | src/dts.c:890-909 | its text, or which error |
| Target.SplitMeans | src/dtb.c:341-366 | a target name is split if and only if it has two underscores, into what is before, between and behind the first two, each cut to 16 characters |
| Target.SplitTarget | src/dtb.c:341-366 | the scan does that |
| Target.ImplementKeepsName | src/dtb.c:318-366 | the name of a DTB is the same after a child was put into its root |
| Target.RemoveKeepsName | src/dtb.c:318-366 | and after one was taken out |
| Dtb.GetTarget | src/dtb.c:318-337 | fails exactly if the strings block lacks "amlogic-dt-id"; what it reads |
| Dtb.ParseEntry | src/dtb.c:368-397 | which DTBs are refused for their name, which have partitions, and everything that is read from the others |
| Implement.ImplementPartitions | src/dtb.c:735-864 | exactly when each error comes up; on success the new DTB is the old tree with the node replaced or appended, and it parses to the requested list and has the old name; the phandles handed out, and that the parser finds them on each partition and, if the rest of the tree uses that form, as linux,phandle too; its phandles are distinct at the two looked-up offsets, and by name if and only if no phandle of the rest of the tree is in the way; the self-check can only fail if there was free space before the strings block, and does if that was as long as the new one |
| Implement.BuiltIsImplemented | src/dtb.c:815-840 | header, structure block and strings block of the new DTB agree; the header finds the strings if and only if they directly followed the structure block |
| Implement.NodeFullLength | src/dts.c:1253-1266 | the number of bytes of a node with its BEGIN_NODE and END_NODE |
| Implement.NewPhandlesDistinct | src/dtb.c:760-786 | after collecting, dropping and assigning: distinct phandles at the two looked-up offsets always; by name exactly under a condition on the old tree |
| Implement.FoundStaysDistinct | src/dtb.c:751-786 | that condition holds if outside the partitions node every property that reads as a phandle has one of the two looked-up offsets |
| Implement.NameKept | src/dtb.c:844-849 | the new DTB has the name of the old one, so that parsing it does not fail for its name |
| Failures.LoadUnseen | src/dtb.c:368-397 | the DTB of the next row is loaded without an error |
| Failures.DuplicatePhandle | src/dtb.c:751-786 | a DTB with "phandle" found in the tail of "linux,phandle", into which every list goes without error and gives away the phandle of another node |
| Implement.WideGapLosesStrings | src/dtb.c:815-840 | with free space as long as the new strings block, the strings that the new header points at are all zeros |
| Failures.WideGapIsRefused | src/dtb.c:844-849 | the same DTB with such free space, for which the self-check refuses every list |
| Implement.ImplementedParses | src/dtb.c:844-861 | the parser finds the requested list in the new DTB |
| RemoveNode.RemovePartitions | src/dtb.c:915-975 | the new DTB is the serialisation of the tree without the node, has the same strings and the same name, and is never refused for it; it is refused with 5 exactly if the root had a second such node and parsing that one ends well or gets to a node |
| RemoveNode.ImplementRemoveRestores | src/dtb.c:915-975 | putting a node into a tree that had none and removing it restores the structure block byte for byte |
| RemoveNode.ImplementRemoveIsRemove | src/dtb.c:915-975 | in general what is left is the old tree without its node |
| Table.EptTable.PedanticOffsets | src/ept.c:306-339 | fills in the one layout that u-boot expects, and fails exactly if there is none |
| Table.EptTable.FromDts | src/ept.c:387-431 | the layout of the default partitions merged with those of the device tree |
| Table.EptTable.ToDts | src/ept.c:786-827 | the partitions that differ from the pedantic reference, with -1 for what reaches the end |
| Layout.ListedInOrder | src/ept.c:806-826 | the device tree lists, in order, every partition but those equal to the reference partition in their place; a size is -1 exactly if the partition reaches the capacity |
| Table.EptTable.IsNotPedantic | src/ept.c:567-613 | 0 exactly for tables laid out as u-boot expects |
| Table.CountInvalid | src/ept.c:234-267 | 0 exactly if all names are legal and different |
| Table.LayoutIsUnique | src/ept.c:306-339 | two layouts of the same partitions are equal |
| Layout.TableRoundTrip | src/ept.c:786-827 | EPT to device tree to EPT is the identity for every pedantic table with unique names that ends within the capacity |
| Layout.ThereAndBack | src/ept.c:387-431 | the same, run on tables in memory |
| Layout.AtLargerCapacity | src/ept.c:786-827 | the device tree of a pedantic table whose last partition is the one that ends last, laid out at a larger capacity: the same table, where a last partition that ended at the capacity ends at the new one, and another keeps its size; only a default `env` stays within its default size |
| Layout.MoveToLarger | src/ept.c:387-431 | the same, run on tables in memory |
| Layout.GapEndsLast | src/ept.c:306-339 | with a gap between partitions, the last one of a pedantic table ends last |
| Layout.BuiltIsSound | src/ept.c:387-431 | tables built from partitions that leave bootloader and reserved alone are pedantic, disjoint and increasing with exact gaps, unique in names, within the capacity, and only the last partition was filled up or cut |
| Layout.BuiltIsValid | src/ept.c:190-267 | with legal names they are valid |
| Layout.MergeTakesLast | src/ept.c:396-424 | a repeated name takes the last size and mask, every partition gets into the table, and none of the others changes |
| Layout.TableEndsWithinIff | src/ept.c:306-339 | whether the laid-out table ends within the capacity, told from sizes, gaps and capacity alone, before it is laid out |
| Layout.LayoutExistsIff | src/ept.c:306-339 | the same for whether it can be laid out |
| Layout.EndsWithinIffNoWrap | src/ept.c:325-336 | a partition ends within the capacity if and only if its size is -1 or does not wrap around its offset |
| Layout.HugeSizeIsNotCut | src/ept.c:325-336 | a concrete size for which it does not |
| Greedy.NothingElseFits | src/ept.c:1291-1310 | with sizes in decreasing order and the best of all starts, no positive size that was left out fits into what is left |
| Ept.EssentialNames | src/ept.c:885-898 | the essential partitions, name by name |
| Ept.IsNotEssential | src/ept.c:885-898 | the scan over the names finds exactly those |
| Packing.SortDecreasing | src/ept.c:1281-1289 | the exchange sort rearranges the pointers into decreasing sizes |
| Packing.FillFrom | src/ept.c:1293-1303 | the greedy choice from one start and the space it leaves |
| Packing.BestMask | src/ept.c:1290-1310 | the chosen start leaves least among all starts |
| Packing.Maximal | src/ept.c:1291-1322 | what goes before `reserved` fills the gap but for the minimum, and nothing that goes after would fit into that |
| Packing.Ungap | src/ept.c:1246-1342 | the same partitions as before, `bootloader` first, those inserted right behind it and ending at or before `reserved`, the others right behind `reserved` and none of them small enough for the space left; and when it refuses |
| Packing.PackedIsDisjoint | src/ept.c:1246-1342 | no two partitions of a packed table overlap |
| Create.CreateTable | src/ept.c:1344-1453 | exactly when it succeeds; the result is a packed table of the essential partitions, those that a definer names taken out and the others as they were, with the defined ones behind, names unique; packing never fails here |
| Create.EssentialsAreKept | src/ept.c:1356-1383 | every essential partition of the old table is in the new one, the last of each name |
| Create.DefineAllCreates | src/ept.c:1403-1445 | the table that a row of definers makes: first the packed partitions that no definer names, unchanged and in their order, then one partition for each definer without a later namesake, in order; its masks are those given, or 4, its offset the end of the partition it was put behind, that plus the relative number, or the absolute number, limited to the capacity, its size the one given, cut to the capacity, or what reaches the capacity; the partition it was put behind is the one before it, unless a later definer took that one out |
| Create.EssentialsComeFrom | src/ept.c:1356-1383 | what is packed is a default partition or an essential one of the old table |
| Create.DefineAllKeepsUnique | src/ept.c:1403-1445 | names stay unique |
| Edit.EditAll | src/ept.c:1210-1244 | a run of commands on the table in memory computes the functional run, and fails exactly when that does |
| Edit.EditEach | src/ept.c:1127-1208 | one command of each kind: exactly when it fails, and otherwise what the next row says |
| Edit.EditMeans | src/ept.c:1035-1208 | each command by its effect: a selector is a name or a position, -1 the last; adjusting sets, adds or subtracts, fails exactly if more than the value is subtracted, cuts to the capacity and changes that partition alone; define and clone add one partition at the end; delete takes the selected one out; placing puts it k places further or to position k, the others in their order |
| Edit.GrowAndShift | src/parg.c:660-685 | with room for it, adding to the size or to the offset raises that number by exactly as much and changes nothing else |
| Edit.GrowTwice | src/parg.c:660-685 | adding twice is adding the sum |
| Edit.ShrinkLowers | src/parg.c:660-685 | subtracting from the size fails exactly if it is more than the size, else lowers it by exactly as much, and adding it again restores the table |
| Edit.MovePart | src/ept.c:1083-1125 | shifting in place is taking out and putting in |
| Edit.MoveIsPermutation | src/ept.c:1083-1125 | placing is a permutation in which the other partitions keep their order |
| Edit.MoveBack | src/ept.c:1083-1125 | placing back undoes it |
| Edit.RunsKeepCount | src/ept.c:1127-1208 | no run exceeds 32 partitions |
| Edit.EditKeepsWithin | src/ept.c:1035-1081 | a table within the capacity stays so if and only if the command's offset and size do not wrap around into it |
| Edit.RunsKeepWithinIff | src/ept.c:1210-1244 | a run keeps every partition within the capacity all along if and only if no command wraps around at its turn |
| Edit.RunsKeepWithin | src/ept.c:1210-1244 | runs with sane numbers keep every partition within the capacity |
| Edit.SetSizeCanEscape | src/ept.c:1046-1055 | a concrete command that lets a partition escape |
| Literal.SizeToHumanInt | src/util.c:71-86 | the number and suffix it returns stand for exactly the size, in the largest unit that the rule for 1024 allows; the suffix index stays in range |
| Literal.HumanReadsBack | src/util.c:110-155 | a size printed with its suffix reads back, for all 64-bit sizes |
| Literal.HexReads | src/util.c:110-155 | digits after 0x or 0X, in either case each, read as their hexadecimal value, or the greatest 64-bit number if it does not fit |
| Literal.OctalReads | src/util.c:110-155 | digits after 0 read as their octal value |
| Literal.DecimalReads | src/util.c:110-155 | other digits as their decimal value |
| Literal.UnitsMultiply | src/util.c:110-155 | a following k, m, g, t, p or e, in either case, multiplies by that power of 1024 modulo 2^64; anything else is ignored |
| Parg.GetSeparators | src/parg.c:153-172 | the first three colons, or none |
| Parg.DefinerMeans | src/parg.c:174-234 | an argument defines a partition if and only if it is four fields with colons between them, none in the first three, whose name is legal and has at most 15 characters and which meet what is required, disallowed, absolute or relative; the value of every field of the definer; for all others the first thing that is wrong |
| Parg.ParseDefiner | src/parg.c:174-234 | filling the definer field by field does that |
| Snapshot.SnapshotClones | src/ept.c:615-726 | cloning a decimal, hexadecimal or human-readable snapshot reproduces the table for every printable table within the capacity |
| Snapshot.PrintedLineClones | src/ept.c:615-726 | the printed line, split at its spaces as a shell does, gives the items, which all parse and clone the table |
| Snapshot.SpacedSplits | src/ept.c:662-726 | items without spaces come back from the printed line |
| Snapshot.CloneTable | src/ept.c:615-660 | exactly when cloning succeeds and what table it leaves |
| Snapshot.SnapshotDecimal | src/ept.c:662-680 | one space-separated item per partition, in decimal |
| Snapshot.SnapshotHex | src/ept.c:682-700 | the same in hexadecimal |
| Snapshot.SnapshotHuman | src/ept.c:702-726 | one space-separated item per partition, each number in a unit that divides it |
| Snapshot.SnapshotDts | src/dtb.c:597-670 | the items of device tree partitions, -1 for autofilled sizes |
| Snapshot.CloneDts | src/dts.c:1018-1048 | exactly when cloning succeeds and what list it yields |
| Snapshot.DtsSnapshotClones | src/dts.c:1018-1048 | the same for device tree partitions, autofilled sizes included, if and only if there are fewer than 32 |
| MultiDtb.Combine | src/dtb.c:1020-1099 | every byte of the container: entries with swapped, space-padded names, and each DTB in its own pages |
| MultiDtb.ContainerBytes | src/dtb.c:1065-1091 | the header byte by byte: the magic, 20 or 56 bytes for each DTB, and in them three names filled up with spaces, every four characters back to front, then offset and size |
| MultiDtb.NameTextMeans | src/dtb.c:1009-1019 | one such name |
| MultiDtb.ReadEntries | src/dtb.c:140-168 | the errors, and each entry read back |
| MultiDtb.PagesAreDisjoint | src/dtb.c:1043-1058 | 2 KiB-aligned extents, apart from each other and from the header |
| MultiDtb.PackedReadsBack | src/dtb.c:100-138 | what each packed entry reads back as |
| MultiDtb.PackedNamesReadBack | src/dtb.c:100-138 | the DTB's bytes always read back; a name does if and only if it fits and has no space |
| MultiDtb.PackAndRead | src/dtb.c:1020-1099 | packing and then reading, for both versions |

## Left out

- File descriptors, seek/read/write retries, ioctl, disk lookup and content guessing (src/io.c): the disk is an array, reading and writing a block never fail.
- Compressed DTBs (src/gzip.c), whose inflating and deflating is done by a library that is not part of this model.
- The command line (src/cli.c): gaps and the offset of `reserved` are parameters. A failed plan makes the caller skip migration and write the table anyway; that is not modelled.
- Reports, web reports and the floating-point sizes in them.
- Magic numbers, versions and checksums of the EPT header and of the DTB partition, and the choice between its two copies.
- The comparison of the target names in a container with those of its DTBs (src/dtb.c:499-509).
- The memory that an entry is parsed into (src/dtb.c:893) is taken to be zeroed, which it is not in all cases; this matters only for an amlogic-dt-id without a NUL, or for a root without one.
- The comparison of the DTBs of one container (src/dtb.c:531-569), which compares entries of one list with themselves and establishes nothing.
- Malformed structure blocks: the walkers are stated for serialised trees only, because the token limit alone does not bound them.
- Device trees whose strings block comes before the structure block, an order that section 5.1 of the Devicetree Specification does not allow.
- Device tree edit commands (src/dts.c:1283-1455), which repeat the table's without offsets, and the text of edit commands (src/parg.c:236-525): commands are given as parsed.
- doc/migration.md describes an older migration algorithm; the code is followed.
- Binary literals (0b...), which some C libraries accept in strtoul.
- Names of 16 characters without a NUL, which `ept_valid_partition_name` accepts although their field is not terminated.
- Migrate.MigrateHelper.Migrate: a read or write error half-way through a run is not modelled.
- Packing.Ungap: sizes that wrap around behind `reserved` and a bootloader larger than its offset are excluded by precondition, and so are repeated names; with no gap at all it leaves all other offsets 0, as stated.
- Create.CreateTable: the essential partitions are assumed not to wrap around behind `reserved`, and the bootloader to be smaller than its offset.
- StringBlock.Helper.AppendSafely: the buffer is doubled once at most, so the block and the string must fit into twice the buffer, as they do for all callers.
- Implement.ImplementPartitions: DTBs within 8 KiB of 4 GiB are excluded, for which the 32-bit header fields would be cut.
- LeastPhandles.NewPhandlesAreLeast: for an old node that was parsed and in which nothing claims another phandle than its last "phandle" property has; otherwise the code does not free all phandles of the old node, and what is handed out is as in NewPhandles.HandedOutIsNextFree.
- LeastPhandles.OccupiedIsOutside: the same.
- MultiDtb.Combine: containers of 4 GiB and more are excluded for the same reason.
- MultiDtb.ReadEntries: memory is assumed to hold the entries that the header counts, which the code does not check.
