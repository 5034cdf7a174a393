# A model of the SLURM SPANK plugins' libraries

This project models the parts of the plugins that keep state with care and proves what
they keep. Seven parts of the repository are covered.

* **Host lists** (`HostRange`, `HostNames`, `HostEntries`, `HostOrder`, `HostRuns`,
  `HostRepeats`, `HostSplits`, `HostCoalesce`, `HostUniq`, `HostLists`, `HostText`,
  `HostRoundTrip`, `HostPrinted`, `HostReading`). A host list is an array of ranges
  `prefix[lo-hi]` with a padding width, and stands for a sequence of host names. All
  operations on ranges are proved to be plain operations on that sequence, although comparing
  and finding rewrite widths. The scan that splits overlapping ranges, which starts again
  after every split, is proved to end, and the lists on which its assertion fails are
  characterised. Printing and reading back gives the same names; what is printed is said by
  the names, and what is refused in reading by the characters.
* **Linked lists** (`ListSpec`, `LinkedLists`, `ListRuns`). Nodes, links and iterators are
  objects; every operation repairs every iterator. An iterator is shown to be a cursor,
  and whole traversals under changes through any handle are characterised. The sort on the
  links is an ordered, stable permutation.
* **The use-env language** (`UseEnv`). The parser acts on each line as it reads it, with a
  stack of conditions. It is proved to do just what a structured evaluator does.
* **The CPU allocator** (`NodeSpec`, `NodePolicies`, `NodeServed`, `NodeMirror`, `NodeMap`).
  Used CPUs are kept per node and per map with a count at each; every allocation keeps the
  four in step, conserves CPUs and returns exactly as many as were asked for. Idle nodes go
  first where they should, best-fit is optimal, first-fit fills nodes by their ids, worst-fit
  is level, and reverse order is normal order in a mirror.
* **The tree of cpusets** (`CpusetSpec`, `CpusetTree`, `CpusetHarm`). Sections that hold
  the lock are steps on a tree of directories. In every tree of every run jobs, steps, tasks
  and users have the CPUs they should, up to one exception, whose exact condition is given,
  with a run that leads to it.
* **CPU set texts** (`CpuList`, `CpuListErrors`, `CpuHex`, `CpuTexts`). Two printers and
  parsers undo one another; the form of what is printed and what is refused are characterised.
* **Affinity masks** (`Affinity`). Masks of different tasks are disjoint, whichever CPUs
  are available, and of the right size, and cover all CPUs where they come out even.

`Sequences`, `Search` and `Decimal` hold notions that several parts use: optional values,
positions in sequences, strchr(3), and decimal text with strtoul(3).

`dafny verify dfyconfig.toml` checks the whole project.

## How the code is modelled

* Imperative code is modelled imperatively: the objects are classes, the loops loops, and
  each method is proved against a function of the old state. The theorems are about those
  functions.
* Ranges of a host list and NUMA nodes are values in the sequence that holds them. In the
  code each is owned by one slot of its list, so there is no sharing to lose. CPU bitmaps
  of the map, of allocations, of cpusets and of tasks are sets of numbers.
* An `unsigned long` has 64 bits. Where the code subtracts two of them and keeps an `int`,
  suffixes up to 2^31 - 1 are assumed in lists whose ranges are split (`Narrow`), and lowest
  suffixes up to that in lists whose ranges are only joined (`Low`). The numbers of hosts and
  of hosts joined away are each an `int`, so `Uniq` takes at most 2^31 - 1 hosts. The wrap of
  `hi` at `lo = hi = 0`, that of the count of a range in the parser and that of `a += s` in
  cpu lists are modelled.
* In the order of `hostrange_cmp` the ranges of a prefix fall into runs. A range shows if its
  width pads its lowest suffix, and a range that shows and prints wider than those before it
  begins a new run (`HostRuns`, `RunMates`). The ranges of one run have compatible widths.
* `hostname_create` splits a name at its trailing digits, if they are worth no more than
  2^25. A host whose range splits it elsewhere cannot be looked up (`Known`); the lookups are
  stated on the list of hosts with that mark (`Listing`).
* `qsort` is represented by a method with its contract, as the order of its comparisons is
  not known; each comparison may rewrite widths, and the contract allows for it.
* The nodes of the system share no CPU and have all CPUs between them (`System`), as the
  kernel reports them. A node map is made in a cpuset whose parent's CPUs it treats as
  used.
* A cpuset directory is a path with CPUs and tasks. `rmdir` succeeds if there are no tasks
  and no children, `rename` if the target is free; `cpuset_modify`, `cpuset_create` and
  `mkdir` succeed otherwise. Directory order is arbitrary, and the walk of the cleaning
  comes to children before parents. Jobs are created from outside the users' cpusets, steps
  and tasks from inside any cpuset. What SLURM says of jobs is an input.
* The tests of the use-env language are an oracle that may depend on all that was done
  before, so that evaluating a test too many would show.
* The position map of the affinity plugin is built from what the system says of each CPU,
  or from a failure to say it.

## What the code does not do

* `hostlist_sort` can fail the assertion on the order of ranges in `hostrange_intersect`
  (`lib/hostlist.c:889`). `Sort` says exactly when: two ranges of one run both reach numbers
  as wide as a later run begins with (`Jams`), as in foo[1-20,2-30,07] (`SortAborts`). Where
  the widths of each prefix are compatible it does not happen.
* `hostlist_uniq` leaves a name twice exactly if ranges of two runs have it in common, as in
  foo[9-12,08-12] and in foo1[2],foo12 (`DistinctIff`, `UniqRepeats`, `UniqRepeatsSplit`).
* `hostlist_pop` and `hostlist_shift` cut a name whose number has more digits than the width
  of its range plus 15 (`lib/hostlist.c:790`, `BufferedMeaning`).
* `hostlist_find` and the deletions by name do not find foo12 on the list made of
  "foo1[2-3]", since they split it as foo and 12 (`ListedButNotFound`).
* `hostlist_nth` writes past a buffer on the stack for a numbered range whose prefix has 80
  characters or more (`lib/hostlist.c:1798-1808`). `Nth` says exactly when.
* The parser of ranges takes the range of all unsigned longs for an empty one, as its count
  wraps to 0 (`NumStrParses`), and with a suffix behind the brackets a range up to 2^64 - 1
  makes it loop for ever (`SuffixesEnd`, `Endless`).
* `hostlist_delete_nth` admits the position one past the end (`lib/hostlist.c:1838`), and
  then counts a host less than there are.
* `list_remove` does not always remove the item returned last, nor does `list_insert` always
  insert before it, as `lib/list.h:246-269` says; `RemovesLast` says when they do, and
  `InsertsBehind` and `RemoveCanMiss` when they do not.
* `list_sort` resets iterators, as `lib/list.h:168-173` says, only if there is more than
  one item.
* A task runs a task block whatever the conditions around it
  (`use-env/use-env-parser.y:620-624`); only conditions inside a task block select tasks.
  `TaskReadsTaskParts` says what a task runs.
* With kill-orphans set, creating a job of no CPUs for a user whose cpuset is an orphan
  moves the orphan back and leaves it the CPUs it had, which others can have by then
  (`cpuset/create.c:337-362`). `UpdateKeeps` shows that nothing else breaks the tree, and
  `HarmHappens` gives a run in which this happens. It takes an orphan made while kill-orphans
  was not set: where the setting never changes no run gets there (`SteadyInOrder`).
* A CPU list with a step of 0 makes `cstr_to_cpuset` loop for ever (`LoopEnds`, `NeverEnds`),
  and a step close to 2^64, such as -1, sets CPUs below the range. `StrideMeaning` says
  exactly when.
* Characters after a number and before a comma are skipped in CPU lists (`Leftover`), and a
  chunk of more than eight characters in a mask sets CPUs from 0 on, whatever its place
  (`LongChunk`, `LongChunkMisread`).
* A single CPU per task is looked up in forward order without going round the positions
  (`auto-affinity.c:768-769`), unlike all other cases, and past the end of the map exactly if
  start + localid is no position (`Overruns`, `StartTooLate`).
* `cpuset_to_hex` takes the length printed so far from that of the buffer as unsigned numbers,
  and prints past the buffer when another chunk follows a text that has passed its end
  (`lua/lua-schedutils/cpuset-str.c:94-103`). `CpusetToHex` says exactly when.

## Model

| member | source | states |
|---|---|---|
| Decimal.ValueOfPadded | lib/hostlist.c:1006-1017 | a suffix printed with zero padding denotes the number it was printed from |
| Decimal.DigitsArePadded | lib/hostlist.c:515-524 | every string of digits is its value printed at its own length, so a host name can be taken apart and put together again |
| Decimal.StrtoulOfPadded | lib/hostlist.c:1374-1381 | strtoul on a printed suffix reads that number and stops where the suffix ends |
| Decimal.PadMonotone | lib/hostlist.c:414-420 | if two widths pad lo alike they pad every larger number alike |
| Decimal.StartsIff | lib/hostlist.c:1374-1381 | strtoul reads a number exactly where digits stand behind white space and at most one sign |
| HostRange.WidthEquivMeaning | lib/hostlist.c:435-465 | widths are equivalent exactly when one width prints both numbers as they were; the two then become equal, and no name that either range stands for changes |
| HostRange.CanonHosts | lib/hostlist.c:435-465 | a width that shows no zero can be dropped without a name changing |
| HostRange.CmpIsKeyCmp | lib/hostlist.c:707-718 | hostrange_cmp, which rewrites widths, has the sign of a comparison without side effects (prefix, single hosts first, printed width, lo) and leaves both ranges naming the same hosts |
| HostRange.KeyOrder | lib/hostlist.c:700-743 | that order is total, antisymmetric and transitive, for ranges below 2^31 |
| HostRange.HostnameRebuilt | lib/hostlist.c:473-533 | hostname_create splits a name into parts that make up the name again; the prefix does not end in a digit |
| HostRange.HostnameOfHost | lib/hostlist.c:485-533 | the name of a host of a range splits into the prefix and number of the range |
| HostRange.HnWithinMeaning | lib/hostlist.c:907-951 | a name found in a range is one of its hosts, and the other way round for a range whose hosts can be looked up by name; the width that may be rewritten changes no name |
| HostNames.ExpandConcat | lib/hostlist.c:1096-1130 | the hosts of two lists of ranges in a row are those of one and then those of the other |
| HostNames.RemoveEachDropsFirst | lib/hostlist.c:1769-1787 | deleting names one after the other, in whatever order, drops from the left as many occurrences of each as it was named |
| HostNames.BufferedMeaning | lib/hostlist.c:788-795 | pop and shift cut a name exactly if its number has more digits than the width of its range plus 15 |
| HostNames.IssuedWhole | lib/hostlist.c:788-795 | where no number is as long as that they give the names as the list has them |
| HostOrder.UniformFits | lib/hostlist.c:414-465 | if the ranges of each prefix are pairwise width compatible then one width serves all of them |
| HostOrder.FitOrder | lib/hostlist.c:707-718 | under such a width hostrange_cmp puts ranges in the order of lo |
| HostOrder.RearrangedHosts | lib/hostlist.c:1911-1928 | a list of ranges that has been rearranged stands for the same hosts, each as often |
| HostOrder.SortRanges | lib/hostlist.c:1911-1928 | the contract of qsort with hostrange_cmp, comparisons rewriting widths on the way: the ranges in order, each as often as before |
| HostRuns.CompatibleIff | lib/hostlist.c:435-465 | a range that prints wider than another has a compatible width exactly if its own width does not show |
| HostRuns.GapsFar | lib/hostlist.c:1967-2015 | in an ordered list whose neighbours do not overlap no two ranges of one run do |
| HostRuns.NotJammedAtEnd | lib/hostlist.c:1967-2015 | a list without overlaps left does not jam |
| HostRuns.UniformNotJammed | lib/hostlist.c:1967-2015 | nor does one whose ranges of each prefix have compatible widths |
| HostRuns.JammedIsStuck | lib/hostlist.c:1967-2015 | a list jams exactly if two ranges of one run reach the width at which a later run begins |
| HostRuns.JammedRearranged | lib/hostlist.c:1911-1928 | sorting by hostrange_cmp, which rewrites widths, does not change whether a list jams |
| HostSplits.SplitHosts | lib/hostlist.c:1976-2008 | splitting two overlapping ranges keeps every host as often as it was there |
| HostSplits.SplitStep | lib/hostlist.c:1976-2010 | each split either adds ranges, of which there are never more than hosts, or swaps two upper bounds the right way round: why the restarted scan ends |
| HostSplits.SplitInOrder | lib/hostlist.c:1976-2010 | a split in an ordered list leaves it ordered, unless the range behind opens a run that the common hosts reach; then the last part and that range are out of order, and the scan comes upon them |
| HostSplits.JammedSplit | lib/hostlist.c:1976-2010 | a split that leaves the list ordered does not change whether it jams; one that does not is of a list that jams |
| HostCoalesce.IntersectMeaning | lib/hostlist.c:879-902 | hostrange_intersect fails its assertion only on ranges out of order, and finds an overlap exactly if two ranges in order, of one prefix and compatible widths, share more than a joint; the widths are made equal and the names kept |
| HostCoalesce.SplitOverlap | lib/hostlist.c:1976-2010 | the body of the scan, with its inner loop, makes just the pieces that the split is specified to make |
| HostCoalesce.InsertCommon | lib/hostlist.c:1992-2007 | the loop over the overlap puts in each of its numbers twice, but its two ends once |
| HostCoalesce.Coalesce | lib/hostlist.c:1967-2015 | for every list the scan ends and keeps the multiset of host names; on an ordered list the assertion fails exactly if the list jams, and else the list stays ordered and no overlap is left |
| HostCoalesce.Collapse | lib/hostlist.c:1943-1962 | joining ranges that continue one another changes neither the names nor their order; an ordered list without overlaps stays one, and no neighbours of compatible widths continue one another |
| HostUniq.KeysAscend | lib/hostlist.c:2036-2057 | ordered ranges that leave gaps have all their hosts in ascending order |
| HostUniq.KeysAreNames | lib/hostlist.c:997-1018 | under a common width the names are the printed keys |
| HostUniq.TextInjective | lib/hostlist.c:473-533 | different prefix and number give different names, for names as the library parses them |
| HostUniq.ClearIsDistinct | lib/hostlist.c:2036-2057 | ranges that are ordered and clear of one another name no host twice |
| HostUniq.DistinctCount | lib/hostlist.c:2036-2057 | a list has as many names as hosts exactly if it names none twice |
| HostUniq.JoinMeaning | lib/hostlist.c:845-871 | hostrange_join: a joined range stands for exactly the hosts of both and the result counts those that were in both; left apart, nothing shows |
| HostUniq.JoinAll | lib/hostlist.c:2017-2057 | the joining loop, on ordered ranges whose lowest suffixes fit an int, loses and invents no name, counts what it drops, and leaves neighbours of compatible widths clear of one another |
| HostUniq.ClearFar | lib/hostlist.c:2017-2057 | then all ranges of one run are clear of one another |
| HostRepeats.RearrangedRuns | lib/hostlist.c:1911-1928 | sorting leaves every run with its hosts |
| HostRepeats.MergedRuns | lib/hostlist.c:845-871 | so does merging a range into the one before it |
| HostUniq.DistinctIff | lib/hostlist.c:2036-2057 | in any list sorted and joined a name is left twice exactly if two ranges of different runs have it in common |
| HostLists.PushedAppends | lib/hostlist.c:1096-1130 | pushing a range, joined to the last one or not, appends its hosts |
| HostLists.PushedWhen | lib/hostlist.c:1096-1130 | a range is joined to the last one exactly if it is of the same prefix, begins with the next number, and one width pads the numbers of both as they were; the two are one range then |
| HostEntries.KnownMeaning | lib/hostlist.c:907-951 | a host can be looked up by name in its range exactly if the prefix does not end in a digit and its number is at most 2^25 |
| HostEntries.LookupMeaning | lib/hostlist.c:907-951 | hostrange_hn_within finds a name exactly if the range has a host of that name that can be looked up, and finds which |
| HostEntries.FoundInRange | lib/hostlist.c:1879-1909 | a host that can be looked up at some depth of a range, and in none before, is the first such of its name |
| HostEntries.AllKnown | lib/hostlist.c:1879-1909 | where prefixes do not end in a digit and numbers are at most 2^25 every host can be looked up |
| HostLists.WithoutHosts | lib/hostlist.c:679-698 | deleting a number from a range leaves the hosts before and after it |
| HostLists.DeletedInRange | lib/hostlist.c:1833-1868 | deleting inside a range, which may split it, removes one position of the expanded list |
| HostLists.HostList.PushRange | lib/hostlist.c:1096-1130 | appends the hosts of the range and keeps the count |
| HostLists.HostList.PushHost | lib/hostlist.c:1588-1610 | appends the name, whatever it looks like |
| HostLists.HostList.PushList | lib/hostlist.c:1612-1628 | appends all names of the other list in order |
| HostLists.HostList.Pop | lib/hostlist.c:1630-1646 | removes the last host, also where lo = hi = 0 and hi wraps, and returns its name as the buffer of prefix + width + 16 bytes holds it |
| HostLists.HostList.Shift | lib/hostlist.c:1669-1691 | removes the first host and returns its name, as that buffer holds it |
| HostLists.HostList.Nth | lib/hostlist.c:1798-1831 | the name at a position, cut at 78 characters as the buffer of the code cuts it; the buffer is overrun exactly if the host is of a numbered range with a prefix of 80 characters or more |
| HostLists.HostList.Find | lib/hostlist.c:1879-1909 | the least position at which a host of the name can be looked up, or -1 exactly if there is none; the widths rewritten on the way change no name |
| HostLists.HostList.DeleteNth | lib/hostlist.c:1833-1868 | removes exactly that position; at position nhosts, which the assertion admits, nothing goes but the count is wrong |
| HostLists.HostList.DeleteHostNamed | lib/hostlist.c:1789-1795 | removes the first host of the name that can be looked up, and nothing exactly if there is none; the result says which |
| HostLists.HostList.Delete | lib/hostlist.c:1769-1787 | of each name, as pop gives it, the first hosts that can be looked up go, as many as it was given, and no others; the result says how many went |
| HostLists.HostList.Sort | lib/hostlist.c:1919-1941 | ends for every list and keeps the multiset of names; aborts exactly if the list jams, a condition on the list as given; else leaves the ranges in order, neighbours of compatible widths neither overlapping nor continuing one another; with compatible widths throughout the names come out in order |
| HostLists.HostList.Uniq | lib/hostlist.c:2036-2057 | for every list: no name is lost or made up, the ranges are in order and neighbours of compatible widths clear of one another; a name is left twice exactly if two ranges of different runs had it in common, and nhosts is the number of names exactly otherwise; with compatible widths throughout the ranges are in strict order, and no name is left twice where the library split the names itself |
| HostLists.OrderMeaning | lib/hostlist.c:700-743 | ordered ranges of fitting widths have the names of the whole list in order |
| HostLists.SortAborts | lib/hostlist.c:879-889 | a list that jams, and how the assertion in hostrange_intersect fails: foo[1-20,2-30,07] |
| HostLists.UniqRepeats | lib/hostlist.c:2036-2057 | a list on which a name is left twice: foo[9-12,08-12] |
| HostLists.UniqRepeatsSplit | lib/hostlist.c:2036-2057 | another, with compatible widths: foo1[2],foo12 holds foo12 under two prefixes |
| HostText.GetBracketedList | lib/hostlist.c:2088-2147 | writes the maximal run of ranges that share a prefix as one token, with brackets where needed, and stops after it, if that fits the buffer; says that it does not exactly otherwise |
| HostText.NumStrInto | lib/hostlist.c:1006-1017 | the text of a range if it fits the room that is left, and else at least that room; NumStrNames says what text that is |
| HostText.RangedString | lib/hostlist.c:2149-2172 | writes the tokens of all runs with commas between, but none before the first character; returns -1 exactly if that does not fit the buffer; PrintedNames says what text that is |
| HostText.NextTok | lib/hostlist.c:353-409 | finds the next token, past separators and past the brackets it opened, and makes progress |
| HostText.ParseRanges | lib/hostlist.c:1362-1424 | reads the comma separated ranges between brackets, refusing what the code refuses |
| HostText.SuffixesEnd | lib/hostlist.c:1438-1460 | the loop over the suffixes of a range ends exactly if the range does not go up to 2^64 - 1 |
| HostText.Create | lib/hostlist.c:1464-1522 | reads a whole text token by token |
| HostText.DeleteHosts | lib/hostlist.c:1769-1787 | deletes the hosts of a text; where the text does not parse nothing goes |
| HostRoundTrip.TokenFound | lib/hostlist.c:353-409 | a printed token is found as one token, commas in its brackets included |
| HostRoundTrip.NumStrParses | lib/hostlist.c:1362-1398 | a printed range is accepted exactly if it has no more than MAX_RANGE hosts or is that of all unsigned longs, whose count wraps to 0; it reads back as it was, at its printed width |
| HostRoundTrip.NumListParses | lib/hostlist.c:1409-1424 | a printed list of ranges reads back as those ranges, at their printed widths |
| HostRoundTrip.GroupPushed | lib/hostlist.c:1426-1514 | reading the text of one run appends its hosts |
| HostRoundTrip.ReadBack | lib/hostlist.c:1464-1514 | reading the printed rest of a list on top of what was read appends the rest |
| HostRoundTrip.RoundTrip | lib/hostlist.c:2149-2172 | hostlist_create on what hostlist_ranged_string prints, given room, has the same host names in the same order |
| HostRoundTrip.ListedButNotFound | lib/hostlist.c:1879-1909 | hostlist_create("foo1[2-3]") lists foo12, which hostlist_find does not find |
| HostPrinted.NumStrNames | lib/hostlist.c:1000-1018 | what is printed of a range is what its first name has behind the prefix and, if there are more names, a dash and what the last has |
| HostPrinted.GroupTextNames | lib/hostlist.c:2088-2147 | a run of ranges prints as the one name it has, or as the prefix and, in brackets, the ends of its ranges with commas between |
| HostPrinted.RunsMeaning | lib/hostlist.c:751-757 | the runs make up the list, each is of numbered ranges of one prefix, and no two neighbouring runs could be one |
| HostPrinted.PrintedNames | lib/hostlist.c:2149-2172 | the printed list is the runs by their names with commas between |
| HostReading.RangeIff | lib/hostlist.c:1362-1398 | exactly which texts between commas are refused as ranges: no number first, something other than a number behind the dash or in the whole, numbers out of order, or too many |
| HostReading.DigitsRead | lib/hostlist.c:1362-1398 | digits, or digits on either side of a dash, read as their values, at the width of the first |
| HostReading.RangesIff | lib/hostlist.c:1409-1424 | a list of ranges is refused exactly if there are too many or one of them is bad |
| HostReading.TokenIff | lib/hostlist.c:1490-1497 | so is a token with brackets, whatever follows them |
| HostReading.TokenSuffixed | lib/hostlist.c:1438-1460 | with something behind the brackets the hosts are the prefix, the number at its width and what is behind, for each number in order; it never ends exactly if a range goes up to 2^64 - 1 |
| HostReading.TextRefused | lib/hostlist.c:1464-1522 | a bad token after any printed list, or first, makes hostlist_create fail, whatever follows |
| HostReading.TokensRead | lib/hostlist.c:353-409 | tokens are read one after the other, whatever tabs, commas and spaces stand around them |
| HostReading.NameToken | lib/hostlist.c:1503-1508 | a token without brackets is the name of one host |
| ListSpec.RepairsAdjacent | lib/list.c:654-721 | the repair of an iterator at every insert, removal and advance keeps pos equal to *prev or to the node after it |
| ListSpec.RemovableUntil | lib/list.c:622-636 | list_remove stays able to act until the item it would remove, or the one after, is taken out by other means |
| ListSpec.KeptStep | lib/list.c:349-373 | one step of the deleting loop |
| ListSpec.PlacedMeaning | lib/list.c:414-430 | one round of the insertion sort keeps the order, the items, and the order of ties |
| ListSpec.SortingMeaning | lib/list.c:399-441 | list_sort yields an ordered, stable permutation |
| ListSpec.SortingThen | lib/list.c:399-441 | sorting what is in the order of one comparison by another gives the lexicographic order |
| ListSpec.SortingMap | lib/list.c:399-441 | sorting commutes with renaming the items |
| LinkedLists.InsertedPointers | lib/list.c:676-683 | the pointer repair of list_node_create is right for every iterator |
| LinkedLists.RemovedPointers | lib/list.c:711-718 | the pointer repair of list_node_destroy is right for every iterator |
| LinkedLists.AdvancedPointers | lib/list.c:575-590 | so is the pointer walk of list_next |
| LinkedLists.RoundItems | lib/list.c:414-430 | relinking one node in the sort is one round of the insertion sort on items |
| LinkedLists.List.MovedLinks | lib/list.c:419-422 | the links after a node was moved are those of the new order |
| LinkedLists.List.NodeCreate | lib/list.c:654-686 | puts an item in at a link; every iterator is repaired and refers to nodes on the list only |
| LinkedLists.List.NodeDestroy | lib/list.c:688-721 | takes the item at a link out; every iterator is repaired and none refers to the freed node |
| LinkedLists.List.Append | lib/list.c:297-310 | adds at the end |
| LinkedLists.List.Push | lib/list.c:444-457 | adds at the front |
| LinkedLists.List.Pop | lib/list.c:459-471 | takes the first item |
| LinkedLists.List.NewIter | lib/list.c:516-535 | an iterator at the start |
| LinkedLists.List.Reset | lib/list.c:537-549 | back to the start |
| LinkedLists.List.Next | lib/list.c:574-590 | returns the item at the cursor, or none at the end, and advances |
| LinkedLists.List.Insert | lib/list.c:592-606 | puts an item in at the link of the iterator, and repairs all iterators |
| LinkedLists.List.Remove | lib/list.c:621-635 | removes the item behind the link of the iterator, or nothing if that is still to come |
| LinkedLists.List.DeleteAll | lib/list.c:348-374 | keeps exactly the items that do not match, in order, and counts the others |
| LinkedLists.List.FindPlace | lib/list.c:416-418 | the search of the sort finds the first greater item |
| LinkedLists.List.MoveBack | lib/list.c:415-425 | moves one node to an earlier place, all links right |
| LinkedLists.List.Sort | lib/list.c:399-441 | sorts, with tail at the last link; iterators go back to the start, but only if there is more than one item |
| ListRuns.StepSound | lib/list.c:654-721 | every event on the list keeps what an iterator has returned in step with what is behind it |
| ListRuns.PlaySound | lib/list.c:654-721 | so does every sequence of events |
| ListRuns.Traversal | lib/list.c:574-721 | under any inserts and removals through any handle an iterator returns no item twice and keeps to the order of the list; at the end just those items on the list have been returned that were there at the start or were put in ahead of the iterator |
| ListRuns.RemovesLast | lib/list.c:592-635 | list_remove takes out the item returned last, and list_insert puts one right before it, exactly as long as neither it nor its successor was taken out otherwise |
| ListRuns.InsertsBehind | lib/list.c:592-606 | after that list_insert puts an item behind all that were returned |
| ListRuns.RemoveCanMiss | lib/list.h:246-269 | the documented promises of list_insert and list_remove fail once the successor has gone |
| UseEnv.Parser.DoTest | use-env/use-env-parser.y:171-182 | every part of a test asks condition() and is false and unevaluated where that is |
| UseEnv.Parser.Act | use-env/use-env-parser.y:145-169 | the grammar actions on the stack of conditions |
| UseEnv.Parser.Parse | use-env/use-env-parser.y:133-169 | the actions of a whole text in order |
| UseEnv.TestsAgree | use-env/use-env-parser.y:171-182 | gating each part of a test by condition() amounts to evaluating all of it or none |
| UseEnv.TestMeans | use-env/use-env-parser.y:171-182 | in an environment that stays as it is a test is true if its formula holds, and looks at all of its parts from left to right; one that is not evaluated looks at none |
| UseEnv.BlockAgrees | use-env/use-env-parser.y:496-614 | reading a block runs just what a structured evaluator runs and restores the stack |
| UseEnv.StmtAgrees | use-env/use-env-parser.y:576-587 | likewise a statement, if chains and task blocks included |
| UseEnv.TailAgrees | use-env/use-env-parser.y:590-614 | within a chain fallthru remembers that a branch was taken: else runs exactly if none was, no test is evaluated after one was |
| UseEnv.FileAgrees | use-env/use-env-parser.y:528-541 | reading a file agrees with evaluating it and ends with the stack it began with |
| UseEnv.TaskReadsTaskParts | README.use-env:70-82 | a task runs exactly the insides of the task blocks, even those inside conditions, which a task does not evaluate |
| UseEnv.InactiveOutside | README.use-env:82-84 | outside of a task an inactive block and every task block do nothing |
| UseEnv.TailOutside | use-env/use-env-parser.y:606-614 | nor does the rest of a chain after the branch that was taken |
| UseEnv.ChainPicks | use-env/use-env-parser.y:576-614 | there a chain runs the branch of the first test that holds, else that of the else, and no other, and evaluates the tests up to that one |
| NodeSpec.NodeTakeMeaning | cpuset/nodemap.c:401-440 | taking CPUs leaves the count of a node right, frees none, and takes as many as it says |
| NodeSpec.TakeFrontFills | cpuset/nodemap.c:418-427 | the loop from the first CPU up, having passed i CPUs, has taken those free among them |
| NodeSpec.TakeBackFills | cpuset/nodemap.c:428-437 | the loop from the last CPU down |
| NodeSpec.BestFitOrder | cpuset/nodemap.c:515-521 | best-fit meets the nodes by free CPUs and then by node id, descending in reverse order |
| NodeSpec.TotalSame | cpuset/nodemap.c:515-521 | the number of free CPUs does not depend on the order of the nodes |
| NodeSpec.WorstRoundMeaning | cpuset/nodemap.c:548-557 | a round of worst-fit finds a node with a free CPU as long as any CPU is free, and takes one |
| NodeSpec.TakeWorst | cpuset/nodemap.c:545-559 | worst-fit ends and takes as many CPUs as were asked for |
| NodeSpec.TakeAllMeaning | cpuset/nodemap.c:515-521 | best-fit and first-fit take all that was asked for, if it is there |
| NodeSpec.TakeIdleMeaning | cpuset/nodemap.c:447-481 | the idle phase takes no more than is asked for, and CPUs are conserved |
| NodeSpec.TakeByPolicyMeaning | cpuset/nodemap.c:586-596 | whatever the policy, the rest that was asked for is taken, and no more |
| NodePolicies.IdleWhole | cpuset/nodemap.c:447-481 | the idle phase takes idle nodes whole and no others, and unless confined to multiples leaves none that would still fit |
| NodePolicies.ShouldForesees | cpuset/nodemap.c:304-335 | should_allocate_idle_nodes says beforehand whether the idle phase takes anything |
| NodePolicies.GreedyBest | cpuset/nodemap.c:483-491 | no way to take k CPUs uses up more nodes than from the smallest on |
| NodePolicies.BestFitUsesUp | cpuset/nodemap.c:523-537 | best-fit leaves as many nodes used up as any way of taking the same number of CPUs, and only the last node it takes from can have CPUs left |
| NodePolicies.TakeAllGreedy | cpuset/nodemap.c:515-521 | what do_allocation leaves free is what the greedy choice leaves |
| NodePolicies.WorstRoundLevel | cpuset/nodemap.c:493-497 | a round of worst-fit keeps the nodes level |
| NodePolicies.WorstFitLevels | cpuset/nodemap.c:545-559 | the whole phase keeps them level |
| NodePolicies.WorstFitLevelsFromStart | cpuset/nodemap.c:545-559 | if worst-fit took any CPU from a node then no node is left with two more free |
| NodeServed.ShrunkTake | cpuset/nodemap.c:401-440 | within a node the free CPUs go from the first on, in reverse order from the last |
| NodeServed.IdleFirstServes | cpuset/nodemap.c:447-481 | in the order of the nodes an idle one goes whole exactly if idle nodes are to go first, it is no larger than what is still to be taken, and for multiples only divides that; no other is touched |
| NodeServed.PolicyServes | cpuset/nodemap.c:586-596 | best-fit: no other way to take as many CPUs uses up more nodes, and only one node taken from keeps any; first-fit: CPUs come from a node only if those before it by id have none left; worst-fit: where CPUs are taken from a node none is left with two more |
| NodeServed.AllocateServes | cpuset/nodemap.c:561-607 | an allocation takes the nodes by id, serves idle ones first and the rest by the policy |
| NodeMirror.MirrorFree | cpuset/nodemap.c:357-361 | what is free in the mirror is what is free seen from the other end |
| NodeMirror.NodeTakeMirror | cpuset/nodemap.c:418-437 | the loop down is the loop up in a mirror |
| NodeMirror.IdleFirstMirror | cpuset/nodemap.c:447-481 | the idle phase in reverse is the mirrored idle phase |
| NodeMirror.TakeByPolicyMirror | cpuset/nodemap.c:586-596 | so is each policy |
| NodeMirror.ReverseIsMirror | cpuset/slurm-cpuset.8:301-319 | allocating in reverse order is mirroring the nodes, allocating in normal order and mirroring back, under every policy and idle setting |
| NodeMap.BitmapsAgree | cpuset/nodemap.c:363-378 | a CPU is marked in its node exactly if it is in the map |
| NodeMap.TotalIsFree | cpuset/nodemap.c:373-376 | the counts of the nodes add up to the number of free CPUs |
| NodeMap.TakeLaid | cpuset/nodemap.c:363-378 | marking a CPU at both levels and counting down at both keeps them in step |
| NodeMap.SortLaid | cpuset/nodemap.c:515-521 | sorting the nodes keeps everything in step |
| NodeMap.MadeLaid | cpuset/nodemap.c:141-188 | the nodes made for the current cpuset are in step with the map |
| NodeMap.NodeMap.constructor | cpuset/nodemap.c:222-278 | nodemap_create leaves both levels and both counters in step |
| NodeMap.NodeMap.TryAlloc | cpuset/nodemap.c:363-399 | takes a CPU if it is free and says so; nothing changes otherwise |
| NodeMap.NodeMap.NodeAllocateN | cpuset/nodemap.c:401-440 | takes as many free CPUs as it can of those asked for, from the first or from the last; what it takes is what becomes used |
| NodeMap.NodeMap.ShouldAllocateIdle | cpuset/nodemap.c:304-335 | says whether some idle node suits the number asked for |
| NodeMap.NodeMap.AllocIdleNodes | cpuset/nodemap.c:447-481 | takes whole idle nodes in order |
| NodeMap.NodeMap.AllocateEach | cpuset/nodemap.c:515-521 | takes from each node in turn |
| NodeMap.NodeMap.AllocateWorstFit | cpuset/nodemap.c:545-559 | takes one CPU at a time from the node with most free |
| NodeMap.NodeMap.Allocate | cpuset/nodemap.c:561-607 | fails exactly if more is asked for than is free; else returns exactly that many CPUs, all free before, new used = old used + allocated, everything in step, and the nodes served as the policy says: idle ones first, then best-fit, first-fit or worst-fit |
| CpusetSpec.OpenedKeeps | cpuset/create.c:332-339 | moving an orphan back or making the directory breaks nothing but that the user may have CPUs of others |
| CpusetSpec.UpdateKeeps | cpuset/create.c:319-385 | an update keeps the tree in order exactly if it does not put an orphan back with CPUs that others have |
| CpusetSpec.JobFits | cpuset/create.c:217-226 | what a new job gets is among the CPUs its user then has, and no other job has it |
| CpusetSpec.CreateKeeps | cpuset/create.c:138-168 | a new cpuset of CPUs that are free in its parent keeps the tree in order |
| CpusetSpec.JobKeeps | cpuset/create.c:200-240 | so does the creation of a job |
| CpusetSpec.UpdateSettles | cpuset/create.c:319-385 | an update without new CPUs leaves the user with just those of the user's jobs, and touches nobody else |
| CpusetSpec.EachSettled | cpuset/create.c:387-407 | when all users have been seen to, in any order, each has just the CPUs of the jobs |
| CpusetTree.UnrelatedApart | cpuset/slurm-cpuset.8:228-246 | in a tree in order no two cpusets share a CPU unless one is in the other or is an orphan |
| CpusetTree.WithinAbove | cpuset/slurm-cpuset.8:236-246 | a cpuset has its CPUs from every cpuset it is in |
| CpusetTree.NeededBy | cpuset/util.c:289-312 | a cpuset stays exactly if it has tasks, is that of a running job of a user who is logged in, or something in it stays |
| CpusetTree.CleanStep | cpuset/util.c:314-347 | going through children before parents, each step leaves just what is needed of what it has passed |
| CpusetTree.CleanedKeeps | cpuset/util.c:314-347 | cleaning keeps the tree in order |
| CpusetTree.Cpusets.UsedCpus | cpuset/util.c:162-232 | the CPUs outside the cpuset, if asked for, and those of all cpusets in it but orphans, whatever the order of the directory |
| CpusetTree.Cpusets.UserCpusetUpdate | cpuset/create.c:319-385 | moves the orphan back or makes the directory, and then sets, orphans or keeps it |
| CpusetTree.Cpusets.UpdateUserCpusets | cpuset/create.c:387-407 | updates every user once and leaves each with just the CPUs of the jobs |
| CpusetTree.Cpusets.CleanPath | cpuset/util.c:289-312 | removes the directory unless it is held, has tasks or has children |
| CpusetTree.Cpusets.Clean | cpuset/util.c:314-347 | removes exactly what is not needed and then updates all users |
| CpusetTree.Cpusets.CreateCpuset | cpuset/create.c:200-240 | allocates through a node map of what is free in the current cpuset, updates the user, makes the cpuset; fails exactly if there are too few CPUs; the new cpuset has exactly the CPUs allocated, unless one of that name was there; leaves the tree in order exactly if the update does and CPUs are not given out inside an orphan |
| CpusetTree.CreatedHas | cpuset/create.c:138-168 | the new cpuset has the CPUs allocated and no tasks, and nothing outside of the user or the parent changes |
| CpusetTree.StepOrder | cpuset/create.c:138-168 | a step or task made of CPUs free in its parent keeps the tree in order exactly if the parent is not an orphan that is a user cpuset |
| CpusetTree.NextKeeps | cpuset/create.c:200-240 | each section under the lock keeps the tree in order, with the one exception |
| CpusetTree.RunsInOrder | cpuset/create.c:200-240 | every tree of every run is in order as long as the exception has not happened |
| CpusetTree.StartHas | cpuset/create.c:200-240 | in every run a job, step or task that starts has the CPUs allocated to it |
| CpusetTree.JobsApart | cpuset/slurm-cpuset.8:228-246 | in every run live jobs are pairwise disjoint, each lies in its user's cpuset, users are disjoint, and steps and tasks likewise in their parents |
| CpusetTree.SteadyInOrder | cpuset/create.c:319-385 | where the kill-orphans setting never changes the exception cannot happen: every tree of every run is in order |
| CpusetTree.SteadyJobsApart | cpuset/slurm-cpuset.8:228-246 | so in all of those jobs and users are apart as they should be, whatever happens |
| CpusetHarm.HarmHappens | cpuset/create.c:337-362 | a run from the empty tree that leads to the exception: an orphan whose CPU another user has by then, kill-orphans set and a job of no CPUs |
| CpuList.CpusetToCstr | lua/lua-schedutils/cpuset-str.c:12-46 | prints the runs of the set, a run of two as two numbers |
| CpuTexts.ListForm | lua/lua-schedutils/cpuset-str.c:12-46 | the numbers are those of the runs in ascending order, decimal without leading zeros; only runs of three or more have a dash |
| CpuList.CstrToCpuset | lua/lua-schedutils/cpuset-str.c:213-278 | parses as specified, item by item, with its early returns; what is refused is said by ItemIff and Refused |
| CpuList.LoopEnds | lua/lua-schedutils/cpuset-str.c:267-270 | the loop over a range goes on for ever exactly if the step is 0 |
| CpuList.ItemReads | lua/lua-schedutils/cpuset-str.c:223-265 | an item is read as it was printed, whatever is skipped behind it and follows |
| CpuList.StrideMeaning | lua/lua-schedutils/cpuset-str.c:265-270 | a range with a step sets exactly a, a + s, ... up to b, if and only if a + s is an unsigned long |
| CpuList.ListReads | lua/lua-schedutils/cpuset-str.c:213-278 | a list of ranges, with steps or without, reads as all CPUs of its ranges |
| CpuList.NeverEnds | lua/lua-schedutils/cpuset-str.c:213-278 | parsing a list of ranges never ends exactly if one of the steps is 0 |
| CpuList.ZeroStep | lua/lua-schedutils/cpuset-str.c:213-278 | as with 0-3:0 |
| CpuList.Leftover | lua/lua-schedutils/cpuset-str.c:223-278 | any list of items, each with characters behind it or without: the ranges are read, what is behind one is skipped before a comma and is an error at the end of the text, when all is set already; a step of 0 makes it endless |
| CpuList.LeftoverRead | lua/lua-schedutils/cpuset-str.c:223-278 | as in 0-3x,7:y,9 |
| CpuList.RoundTrip | lua/lua-schedutils/cpuset-str.c:12-46 | cstr_to_cpuset of cpuset_to_cstr returns 0 and the same set, for every set |
| CpuListErrors.ItemIff | lua/lua-schedutils/cpuset-str.c:223-265 | exactly which items are refused: no number first, one of 1024 or more, a leading zero, something before the dash, and behind it no number, one too large or too small, or none behind a colon |
| CpuListErrors.Refused | lua/lua-schedutils/cpuset-str.c:213-278 | a list is refused with 1 at its first such item, whatever follows; the CPUs of the items before it are set |
| CpuListErrors.RefusedExamples | lua/lua-schedutils/cpuset-str.c:229-266 | as 5-3, and 0-3,abc with 0 to 3 set |
| CpuHex.BitOfFirst | lua/lua-schedutils/cpuset-str.c:121-144 | a digit in front adds its four bits above those of the rest |
| CpuHex.LastBit | lua/lua-schedutils/cpuset-str.c:57-63 | the highest CPU of the set, or 0 |
| CpuHex.ChunkWord | lua/lua-schedutils/cpuset-str.c:94-98 | the word of a chunk has a bit for each of its CPUs |
| CpuHex.CpusetToHex | lua/lua-schedutils/cpuset-str.c:81-106 | prints the chunks from the last down and returns the length of all of them, with what fits in the buffer; writes past the buffer exactly if a chunk other than the first begins past its end, as the room left wraps |
| CpuTexts.MaskForm | lua/lua-schedutils/cpuset-str.c:81-106 | the text is chunks of eight lower case digits with commas between, as many as the highest CPU needs |
| CpuHex.SToCpuset | lua/lua-schedutils/cpuset-str.c:121-144 | sets CPU i exactly if bit i of the hexadecimal value is 1; fails on a character that is no digit, with the digits behind it set |
| CpuHex.SetChunk | lua/lua-schedutils/cpuset-str.c:196-202 | sets the CPUs of one chunk, if it is one of the set's |
| CpuHex.HexToCpuset | lua/lua-schedutils/cpuset-str.c:147-210 | parses one chunk or several, with or without 0x |
| CpuHex.ChunkTextMeaning | lua/lua-schedutils/cpuset-str.c:93-100 | a printed chunk is eight digits whose bits are its CPUs |
| CpuHex.ChunksRead | lua/lua-schedutils/cpuset-str.c:174-206 | printed chunks read back as the CPUs they were printed from |
| CpuHex.RoundTrip | lua/lua-schedutils/cpuset-str.c:147-210 | hex_to_cpuset of cpuset_to_hex returns 0 and the same set, for every set, with 0x in front or without |
| CpuHex.LongChunk | lua/lua-schedutils/cpuset-str.c:180-203 | a mask of any number of chunks: each of up to eight digits is read at its place, and each longer one, wherever it stands, from CPU 0 on; fails exactly if one has no room in the set |
| CpuHex.LongChunkMisread | lua/lua-schedutils/cpuset-str.c:180-203 | so that 100000000,00000000 sets CPU 32 |
| CpuTexts.MaskRefused | lua/lua-schedutils/cpuset-str.c:174-206 | a mask of several chunks fails if in any of them up to eight digits are followed by something else, whatever the others are |
| Affinity.MapPermutes | auto-affinity.c:414-448 | the position map is a permutation, in the order of package, core and descending id |
| Affinity.Affinity.CreateCpuPositionMap | auto-affinity.c:414-448 | fails exactly if a CPU's place cannot be read; else builds that map |
| Affinity.Affinity.MostForAll | auto-affinity.c:720-726 | if nothing was asked for each task gets the most that all can have, and all CPUs are used where they come out even |
| Affinity.Affinity.CpusPerTask | auto-affinity.c:720-726 | what was asked for, if anything was |
| Affinity.Affinity.MaskToAvailable | auto-affinity.c:732-742 | the CPU with so many of those available below it, or -1 exactly if there are not so many |
| Affinity.Affinity.GenerateMask | auto-affinity.c:761-786 | succeeds exactly if each of the task's positions, which follow those of the task before from start on, leads to an available CPU, and sets just those CPUs; else those before the first that does not; where the tasks fit the mask has as many CPUs as were asked for; reads past the position map exactly if there is one CPU per task and start + localid is past its end |
| Affinity.OverrunIs | auto-affinity.c:768-775 | no lookup but that of a single CPU in forward order can leave the map |
| Affinity.StartTooLate | auto-affinity.c:768-775 | and that one does, with four CPUs and two tasks of one CPU each from position 3 on |
| Affinity.Affinity.GenerateMaskReverse | auto-affinity.c:788-814 | the same with positions counted from the last one down, and no read past the map |
| Affinity.Affinity.GeneratedIs | auto-affinity.c:761-814 | what is generated for a task, in the terms of the settings and the position map |
| Affinity.NoneLost | auto-affinity.c:761-814 | there is none such for tasks that fit where the first positions hold the available CPUs, if a single CPU in forward order is looked up among those; each task has exactly cpus_per_task CPUs then |
| Affinity.Affinity.SoundWhenAll | auto-affinity.c:761-814 | which is so where all CPUs are available |
| Affinity.FirstOfTask | auto-affinity.c:777-783 | each CPU added to a mask is a new one |
| Affinity.MasksApart | auto-affinity.c:761-814 | where ntasks * cpus_per_task CPUs are available, or each task has a single CPU in forward order, no two tasks share one, wherever they are, and each has as many as there are before the first that is lost |
| Affinity.Affinity.TasksApart | auto-affinity.c:761-814 | so the masks generated for two tasks are disjoint, and one generated to the end has exactly cpus_per_task CPUs |
| Affinity.MasksCover | auto-affinity.c:761-814 | where they come out even every available CPU is in some mask; a single CPU each in forward order must start at position 0 |
| Affinity.ReverseIsMirror | auto-affinity.c:788-814 | the reverse mask is the forward mask with positions counted from the other end |

## Left out

- HostLists.HostList.PushRange: ranges up to 2^64 - 1, which the parser lets through and
  `hostrange_empty` takes for empty, are outside `Bounded`, which the operations need.
- HostText.DeleteHosts: texts with a range up to 2^64 - 1 are left out for the same reason;
  `HostList.Delete` is its loop on the list that was read.
- HostRoundTrip.RoundTrip: for prefixes free of separators and brackets, tokens shorter than
  the 1024 bytes that the code copies them into, and ranges within MAX_RANGE and
  MAX_RANGES, with a buffer that has room for the text.
- HostText.RangedString: what is in the buffer when the text does not fit is not modelled.
- CpuHex.CpusetToHex: nor what is in memory after the buffer was passed.
- UseEnv.Parser.Act: an active include of a file that fails makes the grammar give up, which
  needs the lexer and is not modelled.
- HostOrder.SortRanges: stands for qsort of the C library by its contract.
- CpusetTree.Cpusets.CreateCpuset: memory nodes are not modelled, nor a failure of
  cpuset_modify after an orphan was moved back, which would leave it its CPUs.
- LinkedLists.List.Sort: freelists, destructors of items and locks are not modelled.
- Affinity.MasksCover: that every available CPU is used is proved where the first positions
  of the map hold the available CPUs; elsewhere a mask can fail, and `GenerateMask` says
  exactly when.
- `hostlist_pop_range`, `hostlist_shift_range`, host list iterators and host sets: what they
  adjust does not match the expanded list in general.
- The older `_hostlist_create` without brackets.
- CpuTexts.MaskRefused: chunks that begin with white space, a sign or 0x, which strtoul takes,
  are specified by `HexToCpuset` but not characterised.
- The lexer of the use-env language: lookahead, comparison of items, variables, includes.
- `overcommit-memory`, the PAM module, the Lua bindings and the plugins that are one
  callback each.
- SLURM, the kernel, file systems, fork and pty calls, memory exhaustion, mutexes, logging.
