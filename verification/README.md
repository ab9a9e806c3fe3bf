# Dibra: a verified model of its in-memory algorithms

Dibra runs playbooks against hosts, much as Ansible does. This project models the algorithms that
decide *what* it runs and with which values, and proves what they promise:

* **Inventory** (`RawInventory`, `GroupGraph`, `InventoryShape`, `InventoryGroups`, `GroupDepths`,
  `VarPrecedence`, `Inventory`). The declared groups form a graph, which holds exactly the groups,
  children, hosts, variables and entries that the file itself declares. Loading succeeds exactly when
  the graph has no cycle, and an error shows a real one. The groups recorded for a host and the members
  found below a group are proved to be the same relation seen from both ends, exactly under the
  condition on "ungrouped" that makes it so. The depth worklist ends with the length of every longest
  path, and therefore host entries beat group variables and descendants beat ancestors.
* **Block editing** (`TextLines`, `BlockInFile`, `BlockInFileShape`, `BlockInFileMarkers`,
  `BlockInFileReturns`, `BlockInFileLaws`). The edit on a list of lines is
  proved against a description of what stands above and below the block, told from the text alone.
  Two laws are proved with their exact conditions: a second run changes nothing, and `absent` undoes
  `present`.
* **The playbook engine** (`TaskQueue`, `Handlers`, `HandlerFlush`, `ImportTasks`). The queue that is
  spliced while it is walked refines a recursive meaning, for all tasks whatever they include, and its
  walk ends exactly when there is one; a flush of handlers ends and runs exactly
  what it should, in order and at most once; import expansion succeeds exactly when a finite tree of
  files exists, and yields its leaves with what they inherit; an error it reports is a real one.
* **Local deployments** (`LocalEngine`, `LocalDeployment`). A whole run is told step by step: which
  task is run in which state, what its turn comes to, what the log shows of it, and when handlers are
  flushed. Over every point of every run at most one reboot is issued, as the last queued entry of the
  last playbook, and a playbook that ends well leaves no handler due.
* **Rolling configs** (`RollingConfig`, `RollingConfigLaws`, `Decimal`). One run is described on any
  store, strangers included, down to what a created config holds. Versions grow over any sequence of
  runs, what is left is the newest, and it is proved exactly when creation fails, when a stranger's
  config is removed, and when repeating a request changes nothing.
* **Values** (`VarMerge`, `CompareValues`, `PortBindings`, `ImageReference`, `Expressions`). Deep
  merging and when it is associative; the comparison modes and how they relate; port bindings as
  multisets; image references and expressions as round trips.

Task execution, template rendering, regular expressions, file loading, JSON encoding, IP parsing and
the formatting of values are arbitrary functions throughout, so every result holds for all of them.
Go maps are walked in an arbitrary order, here with `:|` on the set of keys still to be visited, so
every result holds for every order.

## Where a property fails

Some expected properties hold only under a condition. Wherever "iff" is written the condition is proved
to be exact; concrete inputs outside it are given where they are not obvious:

* The two views of group membership agree iff no host is put into "ungrouped" or "ungrouped" has no
  declared parent but "all" (`Inventory.Inventory.Load`, `RawInventory.UngroupedUnderWeb`).
* A second `present` run changes nothing iff the markers are single lines that differ, no block line
  reads like the begin marker, and the line endings are stable (`BlockInFileLaws.PresentIdempotent`,
  `BlockInFileLaws.CarriageReturnInBlock`, `BlockInFileLaws.MarkerInBlock`). A block line that reads
  like the end marker is harmless. A marker that ends in a carriage return, in a file without CRLF, is
  not found again, and a second run then changes the file (`BlockInFileLaws.ReturnInMarker`) unless the
  block happens to fall on itself, one line further up: a family of files that is described exactly
  (`BlockInFileReturns.FallsOnItself`, `BlockInFileLaws.ReturnsInMarkers`).
* A block that is to stand in front of a match across lines stands directly above the line in which the
  match begins iff the match begins with the file or not with a line: at the beginning of a later line
  the block goes above the line before (`BlockInFileLaws.InFrontOfMatch`,
  `BlockInFileLaws.InFrontOfSecondLine`).
* `absent` restores a text without markers iff the markers and the block are as before, no marker ends
  in a carriage return in a file without CRLF, the block was not put behind an unterminated last line,
  and no blank line had to be added. The line endings do not matter for this otherwise
  (`BlockInFileLaws.AbsentUndoesPresent`).
* Deep merging is associative iff no plain value stands between two maps of which the upper does not
  cover the lower (`VarMerge.DeepMergeAssociative`). This is wider than "no map meets a plain value".
* The program's documentation says that handlers run in definition order. The code does so round by
  round. A whole flush runs in definition order iff no handler notifies one that has not run yet and is
  defined before another handler of the same round (`HandlerFlush.DefinitionOrder`,
  `HandlerFlush.SecondNotifiesFirst`). Where notifications do not depend on the state this can be told
  before the flush: iff every handler that is reached in more rounds of notifying than another is
  defined after it (`HandlerFlush.OrderIsReachedInOrder`). That handlers only notify later definitions
  is not enough (`HandlerFlush.FirstNotifiesSecond`); that they come in layers is, whatever the state
  (`HandlerFlush.LayersKeepOrder`).
* Nothing is started after a local reboot was issued iff no handler is due in the state that the reboot
  and its notifications leave, or the host has failed there and handlers are not forced. This holds of
  every run that is not broken off while it is watched (`LocalDeployment.Runner.ExecuteProject`,
  `LocalDeployment.AlwaysFollowed`, `LocalDeployment.HandlerAfterReboot`).
* A run takes every config for a version whose name begins like one. Requests can only remove the
  module's own versions iff every listed config is one, save the last where creation fails
  (`RollingConfigLaws.OnlyOwnRemoved`, `RollingConfigLaws.StrangerRemoved`). Creation fails iff the next
  name is taken (`RollingConfig.ConfigManager.Run`), which among own versions it never is
  (`RollingConfigLaws.NeverRefused`).
* A new version exceeds every listed config iff the number it is read back as exceeds the newest, that
  is, for a request without a version label of its own, iff the newest is not the largest 64-bit number
  (`RollingConfigLaws.NewVersionExceeds`, `RollingConfigLaws.WrapsAtTheEnd`). A new version has its own
  number iff the request's version label, if any, reads as that number
  (`RollingConfigLaws.NewVersionNumber`, `RollingConfigLaws.VersionOverridden`).
* Repeating a request that created a version, without force, creates another one iff it overrides the
  key label with another key, or, where the new version is not listed last and another one stays, iff
  the old newest does not satisfy it (`RollingConfigLaws.RepeatingChangesNothing`,
  `RollingConfigLaws.KeyOverridden`).
* Allowing more present is transitive except in two families, which are described exactly: a missing
  value in the middle, and the empty object compared as a set in the middle with a missing value at the
  end (`CompareValues.AllowMoreIsTransitive`, `CompareValues.MissingBreaksTransitivity`).
* Port comparison finds a pairing iff there is one in step (`PortBindings.MatchIsPairing`), that is,
  with ports left to Docker, iff those ports take the least current ports of their address
  (`PortBindings.MatchIsLeastFirst`, `PortBindings.MixedFalseAlarm`). With no such mixture it finds
  every pairing of all bindings with some given addresses iff those are told apart: normalising them
  again, as the comparison does, makes no two of them equal (`PortBindings.AddressesToldApart`,
  `PortBindings.AddressFalseAlarm`).
* An image reference is read back iff its repository part is unambiguous and a registry with an `@`
  is followed by a digest (`ImageReference.RoundTrip`, `ImageReference.NormalizeIdempotent`).
* A printed path is read back iff no quoted key holds `]` and no index is beyond 64 bits
  (`Expressions.PathRoundTrip`).

## Model

| member | source | states |
|---|---|---|
| GroupGraph.DescendantsShrink | internal/inventory/inventory.go:366-380 | why the walk from a group down to its members ends: in an acyclic graph a child has strictly fewer descendants than its parent |
| GroupGraph.AcyclicPathLength | internal/inventory/inventory.go:449-480 | a path of an acyclic graph has no more edges than there are groups, which bounds every depth |
| RawInventory.CollectGroups | internal/inventory/inventory.go:165-198 | groups, child edges and host listings collected are exactly those declared anywhere in the nested file; each variable and host entry comes from a declaration of its group, and no declared variable is lost |
| RawInventory.WrapKeeps | internal/inventory/inventory.go:58-72 | hanging the file below a single root keeps it: a top-level group counts unless "all" declares a child of that name, and groups, children, hosts, variables and entries are then exactly those that some counting group declares, itself or below |
| RawInventory.CollectedShape | internal/inventory/inventory.go:58-75 | whatever the file says, the collected graph defines every child it mentions and hangs every group below "all"; only cycles remain to be excluded |
| RawInventory.UngroupedUnderWeb | internal/inventory/inventory.go:301-342 | a file that loads although it meets the condition under which the two views of membership differ |
| InventoryShape.FinishOne | internal/inventory/inventory.go:219-225 | a group all of whose children are finished can be finished: no cycle starts at it |
| InventoryShape.AllFinished | internal/inventory/inventory.go:229-236 | when every group is finished the graph is acyclic and closed |
| InventoryShape.UpwardClosed | internal/inventory/inventory.go:288-299 | a set with the direct groups that holds the parents of what it holds has everything above them, although groups already collected are not entered again |
| InventoryShape.GrownRooted | internal/inventory/inventory.go:322-341 | hanging "ungrouped" below "all" keeps the graph acyclic, closed and rooted |
| InventoryGroups.MembersStepwise | internal/inventory/inventory.go:366-380 | the members of a group are its own hosts and the members of its children |
| InventoryGroups.PlacedViewsAgree | internal/inventory/inventory.go:301-342 | if only "all" is declared above "ungrouped", upward and downward membership agree after it is filled |
| InventoryGroups.PlacedViewsDisagree | internal/inventory/inventory.go:322-341 | any other parent of "ungrouped" gains a member whose recorded groups do not name that parent |
| InventoryGroups.ImplicitHosts | internal/inventory/inventory.go:303-318 | the hosts put into "ungrouped" are exactly those listed, directly or from below, in no group but "all" and "ungrouped" |
| Inventory.Inventory.Visit | internal/inventory/inventory.go:204-227 | one depth-first visit: either a true report of a cycle or undefined group, or the group and all below it become finished and the stack is restored |
| Inventory.Inventory.DetectCycles | internal/inventory/inventory.go:200-237 | no error iff the child relation is acyclic and closed; an error carries a path of real edges that closes a real cycle |
| Inventory.Inventory.ComputeParents | internal/inventory/inventory.go:239-251 | the parent lists are the child edges turned round, sorted; nothing else changes |
| Inventory.Inventory.AddParentGroups | internal/inventory/inventory.go:288-299 | adds ancestors only, closed under parents for what it adds; ends although some groups were collected before |
| Inventory.Inventory.CloseUpward | internal/inventory/inventory.go:268-277 | "all", the direct groups and exactly their ancestors |
| Inventory.Inventory.ComputeHostGroups | internal/inventory/inventory.go:253-286 | each host's recorded groups are exactly those, in order |
| Inventory.Inventory.ComputeUngrouped | internal/inventory/inventory.go:301-342 | the implicit hosts are put into "ungrouped", which grows the child graph by one edge, or nothing changes if there are none; no variable changes; the two views of membership agree iff nobody is put there or "all" is its only declared parent |
| Inventory.Inventory.CollectHosts | internal/inventory/inventory.go:366-380 | the recursive walk finds exactly the hosts listed in the group or below, and ends |
| Inventory.Inventory.GroupMembers | internal/inventory/inventory.go:363-397 | sorted, duplicate-free, and exactly the members of every group |
| GroupDepths.RaiseChild | internal/inventory/inventory.go:469-474 | raising a label and queueing it keeps labels witnessed by paths and every unsettled group queued, and leaves less room to raise |
| GroupDepths.SettledIsLongest | internal/inventory/inventory.go:449-480 | labels that are witnessed and settled are the lengths of the longest paths |
| GroupDepths.DescendantIsDeeper | internal/inventory/inventory.go:449-480 | every descendant is labelled strictly deeper than its ancestor |
| Inventory.Inventory.Relax | internal/inventory/inventory.go:463-476 | one queue item, stale or not, keeps the worklist sound and covering |
| Inventory.Inventory.ComputeGroupDepths | internal/inventory/inventory.go:449-480 | the worklist ends and labels exactly the groups below "all", each with the length of its longest path |
| VarPrecedence.OverlayDecides | internal/inventory/inventory.go:399-447 | laying maps down in (depth, name) order gives each key to the greatest group that sets it |
| VarPrecedence.DescendantBeatsAncestor | internal/inventory/inventory.go:399-447 | a group never wins a key over one of its descendants that sets it |
| VarPrecedence.WinnerIsDeepest | internal/inventory/inventory.go:399-447 | the winner of a key is the deepest group that sets it, a group without a label counting as depth 0, and among equally deep ones the one with the greatest name |
| VarPrecedence.WinnerExists | internal/inventory/inventory.go:399-447 | every key that some group sets has a winner |
| VarPrecedence.DecidedUnique | internal/inventory/inventory.go:399-447 | the effective variables are determined by the declarations, whatever the order of visits |
| Inventory.Inventory.EffectiveVarsForHost | internal/inventory/inventory.go:399-447 | each key has the value of the host entry of its greatest group that has one, otherwise of the greatest group defining it |
| Inventory.Inventory.Load | internal/inventory/inventory.go:42-149 | an empty file is refused; otherwise loading succeeds iff the declared graph is acyclic; the graph has exactly the groups and children, and the inventory exactly the hosts, listings, variables and entries, that the file itself declares, but for the hosts put into "ungrouped"; recorded groups are those above a host, and the views of membership agree iff no implicit host exists or "ungrouped" has no other parent |
| TextLines.JoinSplit | internal/modules/blockinfile/executor.go:224-246 | joining the lines of a text gives the text back |
| TextLines.SplitJoin | internal/modules/blockinfile/executor.go:224-246 | splitting a joined list of well-formed lines gives the list back |
| TextLines.SplitLinesKeepEndings | internal/modules/blockinfile/executor.go:224-246 | the loop, with its case for CRLF, cuts exactly after every line feed |
| TextLines.CRLFInLines | internal/modules/blockinfile/executor.go:63-78 | a CRLF of the text lies within one line |
| BlockInFile.MarkersDiffer | internal/modules/blockinfile/executor.go:89-90 | the two markers differ iff the template has a mark and the two words differ |
| BlockInFile.MarkersOf | internal/modules/blockinfile/executor.go:40-90 | the markers as texts: the first mark of the template is replaced by the word asked for, or by BEGIN and END; a template without a mark stays as it is, and without a template there is one of the program's own |
| BlockInFile.PlainIs | internal/modules/blockinfile/executor.go:248-256 | comparing lines, one line feed and then one carriage return at the end do not count |
| BlockInFile.SeparatorIs | internal/modules/blockinfile/executor.go:63-78 | the line ending is a CRLF iff there is one anywhere in the file |
| BlockInFile.FindMarkers | internal/modules/blockinfile/executor.go:248-263 | the last line that reads like each marker |
| BlockInFile.CalculateInsertPosition | internal/modules/blockinfile/executor.go:265-348 | the position of every kind of request, and what then stands above and below it: behind the last match of a pattern, or in front of it; next to the line that a match across lines ends or begins in; at the end if there is none |
| BlockInFile.PositionStands | internal/modules/blockinfile/executor.go:265-348 | the same of the position as a function, for all lines and requests |
| BlockInFile.CutOldBlock | internal/modules/blockinfile/executor.go:108-123 | removes the old block or stray marker, whichever way round, and leaves the index at the gap |
| BlockInFile.InsertBlock | internal/modules/blockinfile/executor.go:133-159 | the block and the blank lines asked for stand between what was above and below the gap |
| BlockInFile.EditFile | internal/modules/blockinfile/executor.go:62-161 | the whole edit with its moving index, told from the text: which lines go, the last of each marker deciding; where a new block stands; and the exact text that comes of the lines above and below it, with the endings and blank lines added |
| BlockInFileShape.FoundAgain | internal/modules/blockinfile/executor.go:106-123 | where the markers read as they were written, a later run finds the gap around the block just written, or the rest of it after an inner begin marker |
| BlockInFileShape.SeparatorAgain | internal/modules/blockinfile/executor.go:63-78 | for all markers of one line, the next run sees the same line separator iff the endings are stable and no marker brings a CRLF of its own |
| BlockInFileMarkers.BrokenGrows | internal/modules/blockinfile/executor.go:248-263 | a marker that holds a line feed is never found again, so every run makes the file longer |
| BlockInFileReturns.OnlyOnItself | internal/modules/blockinfile/executor.go:106-161 | after markers that end in a carriage return, a second run finds its block as it would write it only one line further up, and only if every block line reads like the begin marker |
| BlockInFileReturns.NeverUndone | internal/modules/blockinfile/executor.go:63-123 | a marker that ends in a carriage return, put into a file without CRLF, keeps `absent` from ever restoring the file |
| BlockInFileLaws.PresentIdempotent | internal/modules/blockinfile/executor.go:89-161 | for all markers, positions, blank-line options and old markers, two runs equal one iff the markers are single lines and, where they keep the ending of the file, differ, with no inner begin marker and stable endings; where they do not, iff the block falls on itself |
| BlockInFileLaws.AbsentUndoesPresent | internal/modules/blockinfile/executor.go:89-161 | on a file in which no marker is found, absent restores the exact text iff the markers are single lines that differ and keep the ending of the file, no inner begin marker, no line had to be terminated and no blank line was added |
| BlockInFileLaws.AbsentChangesNothing | internal/modules/blockinfile/executor.go:106-161 | on any file, a run that removes the block, or is to keep an empty one, changes nothing iff no marker is found and it does not come to stand behind an unterminated last line |
| BlockInFileLaws.CarriageReturnInBlock | internal/modules/blockinfile/executor.go:63-78 | a block with a CRLF in an LF file is changed again by the next run |
| BlockInFileLaws.MarkerInBlock | internal/modules/blockinfile/executor.go:248-263 | a block that holds its begin marker is changed again by the next run |
| BlockInFileLaws.ReturnInMarker | internal/modules/blockinfile/executor.go:63-78 | a begin marker that ends in a carriage return: the next run changes the file again |
| BlockInFileLaws.ReturnsInMarkers | internal/modules/blockinfile/executor.go:106-161 | markers that end in carriage returns and a file on which the block falls on itself, so that the next run changes nothing |
| BlockInFileLaws.InFrontOfMatch | internal/modules/blockinfile/executor.go:304-321 | asked to stand in front of a match across lines, the block stands directly above the line the match begins in iff that is not at the beginning of a line after the first |
| BlockInFileLaws.InFrontOfSecondLine | internal/modules/blockinfile/executor.go:304-321 | a match at the beginning of the second line, for which the block goes above the first |
| TaskQueue.MeansUnique | internal/controller/runner.go:633-643 | a task list has one meaning at most |
| TaskQueue.MeansConcat | internal/controller/runner.go:1418-1421 | for all tasks, a concatenation has a meaning iff running the two lists one after the other has, and it is the same |
| TaskQueue.SpliceStep | internal/controller/runner.go:1418-1421 | for all tasks, running a task and then its included tasks before the tail has a meaning iff running the spliced queue has, and it is the same but for the first task |
| TaskQueue.Queue.AppendAfter | internal/controller/runner.go:2871-2872 | appending to a prefix of a slice may overwrite what lies behind it, in place, or move to a new array |
| TaskQueue.Queue.Splice | internal/controller/runner.go:2869-2872 | thanks to the copy of the tail, the new queue is the prefix, the included tasks and the old tail |
| TaskQueue.WalkQueue | internal/controller/runner.go:633-643 | for all tasks, finite includes or not, the walk over the queue that grows under it ends within a number of turns iff there is a recursive meaning that runs no more tasks, and then with its state, order and tasks; until then it is on the way to whatever meaning there is |
| TaskQueue.RankedHasMeaning | internal/controller/runner.go:2791-2872 | where included tasks rank below the including one in every state, every list has a meaning |
| TaskQueue.RetryEnds | internal/controller/runner.go:2791-2872 | a file that includes itself until a counter is used up has a meaning too, although no rank fits it |
| TaskQueue.ForeverMeansNothing | internal/controller/runner.go:2791-2872 | a file that includes itself in every state has none |
| Handlers.BuildHandlerIndex | internal/controller/handlers.go:23-59 | succeeds iff every handler has a name that renders; holds exactly the last definition of each name, in order, by name and by topic |
| Handlers.OnlyLastReachable | internal/controller/handlers.go:42-57 | whatever is reached by a name or topic is the last handler of its name |
| Handlers.QueueTarget | internal/controller/handlers.go:61-72 | adds exactly the definitions with that name or topic and says whether there was one |
| Handlers.QueueTaskNotifications | internal/controller/handlers.go:97-127 | only a changed, unfailed, unskipped result notifies; with or without an error, exactly the definitions named by the targets before the first that does not render become pending |
| HandlerFlush.RunRound | internal/controller/runner.go:502-626 | one round runs the scheduled handlers that have not run, in definition order, all of them or all up to the one that fails |
| HandlerFlush.FlushHandlers | internal/controller/runner.go:500-631 | ends for all handlers; in rounds and definition order; each at most once; each justified by a notification or the start; without a failure nothing is pending, and everything pending or notified has run by the next round, with the state of that very log; on a failure the last one has failed, every due handler defined before it has run, and pending is exactly whom its round notified |
| HandlerFlush.DefinitionOrder | internal/controller/runner.go:502-512 | what a flush without failure has recorded is in definition order throughout iff no round notified back |
| HandlerFlush.RanIsReached | internal/controller/runner.go:502-512 | if notifications do not depend on the state, a handler has run by a round iff it is reached from those pending in so many steps of notifying |
| HandlerFlush.OrderIsReachedInOrder | internal/controller/runner.go:502-512 | and then a flush without failure runs in definition order throughout iff handlers are reached in that order, a condition on the handlers alone |
| HandlerFlush.LayersKeepOrder | internal/controller/runner.go:502-512 | handlers in layers, each notifying only the next in every state, keep the order, failure or not |
| HandlerFlush.SecondNotifiesFirst | internal/controller/runner.go:502-512 | two handlers for which the order is not kept |
| HandlerFlush.FirstNotifiesSecond | internal/controller/runner.go:502-512 | three handlers that only notify later ones, for which the order is not kept |
| ImportTasks.HandDown | internal/config/import_tasks.go:62-84 | the two loops in place give each imported task the importer's variables below and conditions before its own |
| ImportTasks.Expand | internal/config/import_tasks.go:18-97 | success iff a tree of files exists that repeats no file on a chain and is not too deep; ends by the depth bound; an error is a true report |
| ImportTasks.ExpandImportTasks | internal/config/import_tasks.go:14-97 | the same from the top: the leaves of the forest, or no forest at all and an error that is true at the end of a real chain of different files: a file on the chain is imported again, the chain has 51 files, or a path there is missing, cannot be worked out or loaded |
| ImportTasks.TargetMeans | internal/config/import_tasks.go:30-52 | the file named is rendered and then resolved from the directory of the importing file |
| ImportTasks.InnermostWins | internal/config/import_tasks.go:62-78 | of the importing tasks of a chain that set a variable the innermost decides |
| ImportTasks.ForestUnique | internal/config/import_tasks.go:18-97 | there is only one forest |
| ImportTasks.LeavesInherit | internal/config/import_tasks.go:62-110 | flattening with inheritance on the way down is giving each leaf its whole chain |
| ImportTasks.ExpansionSound | internal/config/import_tasks.go:14-110 | no import remains, file order, conditions outermost first, inner variables win, no chain repeats a file or exceeds 50 |
| LocalDeployment.ValidateRebootPlacement | internal/deploy/project.go:14-57 | accepts iff every playbook loads and every visible reboot is an unlooped last entry of the last playbook; the count check never fires |
| LocalEngine.TryMeans | internal/controller/runner.go:1790-2872 | which case of the dispatch applies, and what each comes to: the module of a task is tried before a reboot, and that before an include |
| LocalEngine.OnceMeans | internal/controller/runner.go:884-918 | a task that is run once fails the host iff its result is a failure, its notifications are not in order, or it has no result and includes nothing; what it includes goes right behind it |
| LocalEngine.LoopedMeans | internal/controller/runner.go:778-882 | a task with a loop goes through all items and fails the host iff one of them fails or has no result, or the notifications are not in order |
| LocalEngine.HandlerTaskMeans | internal/controller/runner.go:521-626 | what makes a handler fail, and the state it leaves |
| LocalEngine.MetaMeans | internal/controller/runner.go:719-765 | in the course of the queue handlers are started exactly by a task that flushes them while one is due, and none is left due unless one fails; only a task that says so ends the host |
| LocalEngine.FlushIsComplete | internal/controller/runner.go:500-631 | a flush starts something iff a handler is due, and leaves none due unless it fails |
| LocalEngine.PlaysFlushes | internal/controller/runner.go:922-925 | after the tasks of a playbook handlers are started iff one is due, the host has not been ended, and it has not failed or they are forced; a playbook that ends well leaves none due |
| LocalEngine.DeployedFlushes | internal/deploy/daemon.go:283-317 | the same of every playbook of a deployment |
| LocalEngine.TwoReboots | internal/controller/runner.go:935-943 | the queue counts as having too many reboots iff two of its entries reboot |
| LocalDeployment.Runner.ExecuteTaskOnce | internal/controller/runner.go:2774-2800 | exactly the attempt at the task; a reboot is issued only where it is allowed and leaves the queue as it is |
| LocalDeployment.Runner.Flush | internal/controller/runner.go:500-631 | exactly the handler tasks that are due, one after the other, up to one that fails |
| LocalDeployment.Runner.RunMeta | internal/controller/runner.go:719-765 | what each action comes to; a flush starts something iff a handler is due and leaves none due unless it fails |
| LocalDeployment.Runner.RunLoop | internal/controller/runner.go:809-848 | every item is run, in the state the one before has left, whether that failed or not |
| LocalDeployment.Runner.RunLooped | internal/controller/runner.go:778-882 | a loop that includes brings its tasks into the queue; any other is run through, and fails the host if an item fails or the notifications are not in order |
| LocalDeployment.Runner.RunOnce | internal/controller/runner.go:884-920 | exactly the turn of a task that is run once, and whether it issues a reboot |
| LocalDeployment.Runner.RunHandlerTask | internal/controller/runner.go:521-626 | exactly one task of a handler, which may not reboot |
| LocalDeployment.Runner.RunTask | internal/controller/runner.go:633-919 | exactly this entry is started; its turn, the new state, queue and log are those of its step; a reboot is issued only if it is the last of the queue, right after its start, and is then the last thing that happened |
| LocalDeployment.Runner.WalkTasks | internal/controller/runner.go:633-921 | the walk goes from entry to entry of the growing queue, each in the state the one before has left, to its end or to the first that ends or fails the host |
| LocalDeployment.Runner.RunPlaybook | internal/controller/runner.go:633-934 | the walk, the state in the end, the result and the whole log; after the walk handlers are started iff one is due, the host has not been ended, and it has not failed or they are forced, and none is left due if the playbook ends well; no reboot unless allowed, and then at most one, with any dynamic includes and handlers; a reboot is the end of the log iff no handler is due in the state after it, or the host has failed there and handlers are not forced |
| LocalDeployment.Runner.LoadAndRun | internal/deploy/daemon.go:287-303 | one playbook as it is loaded in the state at hand, with all that its log shows; only the last may reboot |
| LocalDeployment.Runner.ExecuteProject | internal/deploy/daemon.go:283-317 | the whole run, on the tasks as they are loaded again for it, is safe; it is refused iff the preflight refuses, and then starts nothing; otherwise the playbooks follow each other, each in the state the one before has left, up to one that fails; the log of a complete run is exactly that of its playbooks, none of which has left a handler due unless it ended the host; the result says whether a reboot was issued |
| LocalDeployment.SafeHasOneReboot | internal/deploy/daemon.go:283-317 | a safe log has at most one reboot |
| LocalDeployment.AlwaysFollowed | internal/controller/runner.go:919-934 | where a handler is due after whatever a reboot leaves, no such run ends with its reboot |
| LocalDeployment.HandlerAfterReboot | internal/controller/runner.go:925-928 | a run in which a handler is started after the reboot was issued |
| Decimal.AtoiItoa | internal/modules/docker_config/executor.go:318-331 | a printed number is read back iff it is in the range of 64 bits |
| Decimal.Written | internal/modules/docker_config/executor.go:239-241 | numbers as they are written: the sign first, then the digits, the last counting ones |
| Decimal.Signed | internal/modules/docker_config/executor.go:326-330 | digits are read as a number, with a sign or without |
| Decimal.Unsigned | internal/modules/docker_config/executor.go:326-330 | and nothing else is read as a number |
| Decimal.Positional | internal/modules/docker_config/executor.go:326-330 | of digits that are read the last counts ones and the others ten times as much |
| Decimal.OneDigit | internal/modules/docker_config/executor.go:326-330 | one digit is read as its own number |
| RollingConfig.VersionsAre | internal/modules/docker_config/executor.go:151-176 | on any store the listing has exactly the configs whose name begins with the base and "_v", by the numbers their version labels are read as, 0 if that cannot be done; equal numbers stay in the order of the daemon |
| RollingConfig.ConfigManager.GetConfigs | internal/modules/docker_config/executor.go:151-176 | the loop over the store collects exactly this listing |
| RollingConfig.NewIsAsRequested | internal/modules/docker_config/executor.go:235-256 | a new config holds what was requested: the data, the template, the base with "_v" and the next number as its name, and the labels, those requested over the key and the number |
| RollingConfig.CreatedStays | internal/modules/docker_config/executor.go:178-292 | the config a run creates is not removed by it, and is all that is new in the store |
| RollingConfig.ConfigManager.CreateConfig | internal/modules/docker_config/executor.go:235-274 | appends the next version, which is as requested, or fails exactly when its name is taken; a dry run does neither |
| RollingConfig.ConfigManager.Present | internal/modules/docker_config/executor.go:178-233 | a new version, which is as requested, iff there is none, the newest differs in key, template or a requested label, or it is forced; the exact new listing and store, or the failure |
| RollingConfig.ConfigManager.RemoveOldVersions | internal/modules/docker_config/executor.go:276-292 | removes the oldest until max(1, keep) remain, or up to the first that is in use; the exact new store |
| RollingConfig.ConfigManager.Run | internal/modules/docker_config/executor.go:100-122 | the whole run on any store: it fails to create iff the next name is taken and then changes nothing; it creates a version iff there is none, it is forced, or the newest differs in key, template or a requested label; the store then holds one config more, which is as requested; how many of the oldest are removed; a dry run changes nothing |
| RollingConfigLaws.VersionsWithoutAll | internal/modules/docker_config/executor.go:284-291 | removing the first listed configs leaves the later ones in the same order |
| RollingConfigLaws.VersionsAfterRun | internal/modules/docker_config/executor.go:151-292 | after any run whose new version goes last, the next listing is the old one with that version, without those removed |
| RollingConfigLaws.NewVersionNumber | internal/modules/docker_config/executor.go:235-244 | a new version is read back as its own number iff the request has no version label or one that reads the same |
| RollingConfigLaws.NewVersionExceeds | internal/modules/docker_config/executor.go:206-241 | on any store a new version exceeds every listed config iff there is none or the number it is read back as exceeds the newest |
| RollingConfigLaws.NextNameIsFree | internal/modules/docker_config/executor.go:235-241 | among own versions the next name is never taken |
| RollingConfigLaws.RunAll | internal/modules/docker_config/executor.go:100-122 | successive runs on one swarm form a history |
| RollingConfigLaws.RunStepNewest | internal/modules/docker_config/executor.go:178-292 | a run, failing or not, leaves the newest number or raises it by one |
| RollingConfigLaws.NewestNeverFalls | internal/modules/docker_config/executor.go:178-292 | over any history on any store the newest number never falls |
| RollingConfigLaws.EnoughNumbers | internal/modules/docker_config/executor.go:206-241 | numbers cannot run out over a history that starts with as many left as there are runs |
| RollingConfigLaws.CreatedVersionsGrow | internal/modules/docker_config/executor.go:178-292 | each version created is greater than every one created before, including those removed since, and than every config then listed |
| RollingConfigLaws.NeverRefused | internal/modules/docker_config/executor.go:235-261 | no run of a history that starts among own versions fails to create, and no stranger ever appears |
| RollingConfigLaws.RemainingAreNewest | internal/modules/docker_config/executor.go:276-292 | what is left has the requested number, and nothing removed is newer than anything left |
| RollingConfigLaws.OwnNumbersDiffer | internal/modules/docker_config/executor.go:151-176 | among own versions the numbers of a listing are strictly ascending |
| RollingConfigLaws.RemovedAreOlder | internal/modules/docker_config/executor.go:276-292 | over any history that starts among own versions, all listings are strictly ascending and whatever a run removes is older than all it leaves |
| RollingConfigLaws.OnlyOwnRemoved | internal/modules/docker_config/executor.go:158-164 | on any store, requests remove only own versions iff every listed config is one, save the last where creation fails |
| RollingConfigLaws.RepeatingChangesNothing | internal/modules/docker_config/executor.go:178-292 | on any store, the unforced repetition of a complete run creates a version iff that run did and the request repeats for ever, which is said by its labels and the old newest; otherwise it leaves the store as it is |
| RollingConfigLaws.StrangerRemoved | internal/modules/docker_config/executor.go:158-164 | a run that removes a config which is no version at all |
| RollingConfigLaws.VersionOverridden | internal/modules/docker_config/executor.go:242-244 | a request that overrides the version label: its second run fails to create |
| RollingConfigLaws.KeyOverridden | internal/modules/docker_config/executor.go:189-193 | a request that overrides the key label: its repetition creates another version |
| VarMerge.MergeMaps | internal/vars/vars.go:227-245 | the loop computes the merge and recurses only where both values are maps |
| VarMerge.LastLayerDecides | internal/vars/vars.go:121-124 | under replacement every key has the value of the last layer defining it |
| VarMerge.DeepTop | internal/vars/vars.go:121-124 | merging deeply, the last layer that has a key decides it, unless it holds a map over a map: the merged map then keeps its plain values, and those of the map below under other keys |
| VarMerge.EmptyIsIdentity | internal/vars/vars.go:227-245 | the empty map is an identity on both sides |
| VarMerge.DeepMergeIdempotent | internal/vars/vars.go:227-245 | merging a map with itself changes nothing |
| VarMerge.CoversIffHidden | internal/vars/vars.go:227-245 | one map hides another iff it covers it path by path |
| VarMerge.DeepMergeAssociative | internal/vars/vars.go:227-245 | deep merging is associative iff nothing is sandwiched |
| VarMerge.MergeGroupVars | internal/vars/vars.go:199-221 | group files are merged in name order, each once, unnamed groups skipped; under replacement the group with the greatest name decides each key |
| VarMerge.ResolveHostVars | internal/vars/vars.go:107-139 | the namespaces are those given; a key has its value from the extra variables, otherwise from task, runtime, play, host or group, in this order, if no strategy or replacement is chosen; merged deeply, the same of values that are not all maps |
| CompareValues.ScanList | internal/modules/docker_container/comparison.go:205-215 | the greedy scan answers true iff the desired list is a subsequence |
| CompareValues.CompareSets | internal/modules/docker_container/comparison.go:228-240 | set comparison through encoded keys is inclusion of the element sets, and equality in strict mode through the size check |
| CompareValues.CompareValues | internal/modules/docker_container/comparison.go:178-275 | the answer for every kind, mode and missing value |
| CompareValues.SameMeans | internal/modules/docker_container/comparison.go:178-275 | the same answer told from the elements and keys themselves, kind by kind, ignored options and missing values first |
| CompareValues.StrictIsMutual | internal/modules/docker_container/comparison.go:178-275 | a strict match is a match with more allowed in both directions, for every kind and missing values too |
| CompareValues.AllowMoreIsTransitive | internal/modules/docker_container/comparison.go:178-275 | for all values and kinds: what matches a state matches every state that has more, except exactly in two families |
| CompareValues.MissingBreaksTransitivity | internal/modules/docker_container/comparison.go:182-195 | inputs of both families |
| PortBindings.NormalizePortBindings | internal/modules/docker/ports.go:273-299 | each port gets the sorted canonical bindings of a key that names it, in any order of the map |
| PortBindings.NormalizedIs | internal/modules/docker/ports.go:286-302 | the normal form has one binding for each given, with its port and its parsed address, empty and 0.0.0.0 being the same, by address and then by port |
| PortBindings.MatchesMeans | internal/modules/docker/ports.go:338-353 | two bindings match iff they stand for one address and the desired port is the current one or none |
| PortBindings.ComparePortBindings | internal/modules/docker/ports.go:324-356 | for all maps, the two loops decide whether the normal forms of the order in which the maps were visited agree, which is agreement of the maps when keys name distinct ports |
| PortBindings.AnswerInEveryOrder | internal/modules/docker/ports.go:324-356 | where keys name one port, the answer is positive in every order of the maps iff all those keys agree |
| PortBindings.AnswerInSomeOrder | internal/modules/docker/ports.go:324-356 | and in some order iff for each desired port two of them agree |
| PortBindings.MatchIsPairing | internal/modules/docker/ports.go:338-353 | for all addresses and ports, sorted lists match iff the bindings pair off one to one and in step |
| PortBindings.MatchIsLeastFirst | internal/modules/docker/ports.go:338-353 | where addresses are told apart, iff they pair off with unchosen ports taking the least current ports of their address |
| PortBindings.ExplicitIsMultisetEquality | internal/modules/docker/ports.go:338-353 | with explicit ports and addresses told apart it is equality of multisets, so order never matters |
| PortBindings.TrueAnswerPairs | internal/modules/docker/ports.go:338-353 | for all addresses and ports, a true answer yields a one-to-one pairing |
| PortBindings.UnmixedFindsPairing | internal/modules/docker/ports.go:338-353 | without mixed addresses, and with addresses told apart, every one-to-one pairing is found |
| PortBindings.AddressesToldApart | internal/modules/docker/ports.go:286-368 | that condition is exact: all unmixed bindings with given addresses are paired whenever they can be iff those addresses are told apart |
| PortBindings.StrictComparison | internal/modules/docker/ports.go:324-356 | strict comparison is equal ports and equal multisets port by port |
| PortBindings.MixedFalseAlarm | internal/modules/docker/ports.go:338-353 | a pairing that is missed when one address mixes chosen and unchosen ports |
| PortBindings.AddressFalseAlarm | internal/modules/docker/ports.go:286-294 | an address with a blank in front, for which equal bindings are sorted differently and compared as different |
| ImageReference.RoundTrip | internal/modules/docker/image_reference.go:28-106 | for every valid reference, parsing what is printed gives it back iff it is unambiguous and an `@` in the registry comes with a digest |
| ImageReference.ParsedRegistry | internal/modules/docker/image_reference.go:39-45 | whatever is parsed is unambiguous |
| ImageReference.FirstComponent | internal/modules/docker/image_reference.go:39-45 | a first component is a registry iff it holds a dot or a colon or is "localhost" |
| ImageReference.PathIs | internal/modules/docker/image_reference.go:11 | the automaton for paths accepts exactly the well-formed ones: no component is empty, each begins and ends with a letter or digit, and between those stand a dot, one or two underscores, or hyphens |
| ImageReference.ValidMeans | internal/modules/docker/image_reference.go:52-73 | a reference is accepted iff registry, path, tag and digest are each well-formed |
| ImageReference.NormalizesTo | internal/modules/docker/image_reference.go:75-86 | the registry and the path put in for those left out |
| ImageReference.NormalizeIdempotent | internal/modules/docker/image_reference.go:75-134 | normalising an accepted reference again gives the same iff an `@` in its registry comes with a digest |
| Expressions.ScanShorter | internal/vars/render.go:157-183 | a dynamic token is strictly shorter than its expression, which is why resolving ends on every text |
| Expressions.ScanHead | internal/vars/render.go:143-195 | what a dot and a blank do to the name that has been begun |
| Expressions.ScanCharacter | internal/vars/render.go:184-194 | any other character belongs to the name, which ends with the expression |
| Expressions.ScanBrackets | internal/vars/render.go:157-183 | a bracket reaches to the next closing one, without which nothing can be read, and holds one token |
| Expressions.QuotedKey | internal/vars/render.go:168-176 | quotes of either kind make what is between them a key as it stands |
| Expressions.UnquotedKey | internal/vars/render.go:168-180 | anything else in brackets is an index if it is a number, and otherwise an expression |
| Expressions.GetSelects | internal/vars/render.go:108-130 | a list is entered at the index written, counted from 0, a map at the key, and nothing else at all |
| Expressions.NoValue | internal/vars/render.go:89-98 | what cannot be read, or is blank, has no value |
| Expressions.Tokenize | internal/vars/render.go:139-195 | the index loop finds the tokens of the recursive reading, or fails where it does |
| Expressions.ResolveExpr | internal/vars/render.go:89-132 | the recursive fold over the tokens, on every text and context |
| Expressions.PathRoundTrip | internal/vars/render.go:139-195 | printing a path of plain names, indexes and quoted keys and tokenizing it gives the path back iff no key holds `]` and no index is beyond 64 bits |
| Expressions.ResolveIsLookup | internal/vars/render.go:89-132 | resolving a printed path is looking its keys up one after the other |
| Expressions.DynamicIsNested | internal/vars/render.go:100-106 | a bracket that holds another path uses the value found there as its key |

## Left out

* RawInventory.CollectGroups: when one group is declared twice with conflicting values, only that the value is one of the declared ones is stated; which one depends on the order of Go maps.
* RawInventory.Declare: host entries of a repeated declaration replace each other as a whole, as in the source, and a null group counts as an empty one.
* Inventory.Inventory.Load: groups and host entries are values in two map fields, where the source keeps pointers to structs in two maps; nothing aliases them there either, so only identity is lost.
* Inventory.Inventory.EffectiveVarsForHost: secrets and templates inside inventory variables are resolved by other passes and are not part of this model.
* BlockInFile.EditFile: regular expressions are arbitrary predicates on lines, or arbitrary searches in the whole text, and one that does not compile is a request for the end of the file; creating, backing up, validating and writing the file are left out. A multi-line pattern that matches is taken to yield two offsets.
* TaskQueue.WalkQueue: a bound on its turns stands for stopping to look at a walk at any point, since a walk need not end; what one task does is one arbitrary step.
* HandlerFlush.DefinitionOrder: reads its condition off the record of the flush, because notifications may depend on the state; `HandlerFlush.OrderIsReachedInOrder` is the condition that can be told before the flush where they do not.
* HandlerFlush.FlushHandlers: what one handler does, with its loops and includes, is one arbitrary step; the flush inside `LocalDeployment` goes from one handler task to the next, which one being an arbitrary function of the state, so the order there is not told a second time.
* ImportTasks.ExpandImportTasks: reading and decoding the files, rendering and path resolution are arbitrary functions of the path.
* LocalDeployment.Runner.ExecuteProject: a bound on the turns of its loops stands for stopping to look at a run at any point, so a run that is broken off in this way is only said to be safe so far. What a task, a handler or a reboot does to the state is arbitrary. Only the local mode of the engine is modelled, where every failure ends the host.
* RollingConfig.ConfigManager.Run: the `absent` state and configs without rolling versions are left out as easy; creation can only fail for a taken name and removal for a config in use; the other fields of a Docker config are not modelled; a hash of the data is an arbitrary string. The store is listed in its own order and grows at its end, while the daemon promises no order; this matters only between configs with equal numbers, which own versions never have (`RollingConfigLaws.OwnNumbersDiffer`).
* RollingConfigLaws.CreatedVersionsGrow: supposes that no request brings its own version label and that the newest number is never the largest 64-bit one, which `RollingConfigLaws.EnoughNumbers` tells from the first store; `RollingConfigLaws.NewVersionExceeds` says what happens otherwise.
* CompareValues.CompareValues: values have already been through JSON, and the encoding used for set elements is any injective function.
* PortBindings.NormalizePortBindings: a nil map counts as an empty one; parsing and expanding port specifications is left out.
* PortBindings.UnmixedFindsPairing: supposes that the addresses are told apart, as are all without surrounding spaces or a prefix length; `PortBindings.AddressesToldApart` shows that this is needed.
* ImageReference.NormalizeImageReference: the regular expression for paths is modelled as the automaton it describes; joining a name with a tag and image ids are left out.
* Expressions.Tokenize: trimming removes the ASCII space characters; the template engine around expressions, its ten rendering rounds and lists of strings as a separate type are left out.
* SSH and copying, the agent and its dispatch, module executors with their arguments, file attributes, health waits, registry credentials, polling of the deployment server and all output are plumbing without algorithms of this kind.
