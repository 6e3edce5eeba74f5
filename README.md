# clouddrive-php core, modelled in Dafny

This project models the core of clouddrive-php, a PHP client for a cloud drive. It models six parts:

- **Local node cache** (`node_store.dfy`, module `NodeStore`).
  - The SQL cache is a class that owns two maps: the `nodes` table keyed by node id and the `configs` table keyed by account e-mail.
  - `saveNode` is an upsert, and a root node with a falsy name is stored as `ROOT`.
  - Lookups go by id, checksum, exact name and children. The children lookup is the suffix match on the comma-joined `parents` column.
- **Path resolver** (`drive.dfy`, module `Drive`).
  - `buildNodePath` walks the `parents[0]` chain up to a root.
  - `findNodeByPath` is a first-match search over the same-named cached nodes.
  - Also modelled: `getRootNode`, `getPathArray`/`getPathString`, the `nodeExists` decision, the `uploadFile` decision and `createDirectoryPath`.
  - Creating a folder, uploading and overwriting are oracles passed in as functions. The local file's MD5 is an input.
- **Query filter builder** (`query_filter.dfy`, module `QueryFilter`).
  - The filter is an ordered field→condition array, held in an object and updated in place.
  - `escapeValue` is backslash escaping, and `buildString` serialises the array.
- **Node path and URL normalisers** (`node_paths.dfy`, module `NodePaths`).
- **Remote lineage matching** (`remote_folder.dfy`, module `RemoteFolder`).
  - `getLineageById` reads the metadata service, modelled as a map from id to folder metadata.
  - `getRemoteByPath` reads the folder listing, modelled as a function from the filter's query string.
  - Also modelled: `lineageMatchesPath` and `remoteFolderExists`.
- **Command configuration** (`command_config.dfy`, module `CommandConfig`).
  - The fixed `configValues` option table.
  - `setConfig`, `setConfigValue` and `removeConfigValue` over the config bag, with the coercion through `FILTER_VALIDATE_BOOLEAN` and `settype`.
  - The `generateCacheStore` choice.
  - The unit index of `convertFilesize`.
  - The trash filter and the case-insensitive name sort of `listNodes`.

Shared pieces:

- `php.dfy` (module `Php`) models the PHP built-ins the core relies on: `implode`, `explode` with a one-character separator, `trim`, `array_filter` with its keys kept, the falsiness of strings, `strtolower` and `strcasecmp`.
- `counting.dfy` holds the pigeonhole argument behind the cycle results.
- `wrappers.dfy` holds `Option` and `Result`.

The model follows the code where its behaviour differs from what a cache of this kind would usually do:

- Children are found by a suffix match on the `parents` column (`src/CloudDrive/Cache/SQL.php:100`), not by a join on an edge table. The edge table is never read or written by `SQL.php`.
- The checksum lookup returns one node or null (`find_one`), not a set.
- `buildNodePath` has no cycle guard. On a cyclic `parents[0]` chain, the `while (true)` loop of `src/CloudDrive/CloudDrive.php:91` never ends. The model walks with a fuel of one step per cached node and reports `Unterminated`. `Drive.UnterminatedMeansCycle` proves this happens only on a chain that never reaches a root or a missing parent.
- The path of a non-root node stops below the root: the root's name is never part of it.
- `createDirectoryPath` probes the prefix that `array_slice($path, 0, $index + 1)` gives with the keys `array_filter` left (`ProbeAsWritten`), and `getRemoteByPath` compares lineages by the path's keys (`LineageMatchesPathAsWritten`). The intended readings (`Probe`, and the `Intended` comparison) are defined beside them, with lemmas that say where both agree and inputs where they differ (see Findings).

## Model

| member | source | states |
|---|---|---|
| NodeStore.Normalize | src/CloudDrive/Cache/SQL.php:158-160 | A root with a falsy name gets a name that is not falsy; only the name can change; any other node is stored as it is |
| NodeStore.NodeStore.SaveNode | src/CloudDrive/Cache/SQL.php:156-180 | The table becomes the upsert of the normalised node's row under its id; configs unchanged; the row invariant holds |
| NodeStore.SaveThenGet | src/CloudDrive/Cache/SQL.php:156-180 | After saveNode, findNodeById of the id returns the node, renamed to ROOT only when it is a root with a falsy name |
| NodeStore.SaveUpsert | src/CloudDrive/Cache/SQL.php:162-179 | Saving adds exactly the node's id to the keys and leaves every other row alone; saving twice equals saving once; saving the normalised node equals saving the node |
| NodeStore.Md5ColumnAgrees | src/CloudDrive/Cache/SQL.php:167-177 | A row has the checksum in its md5 column iff a cached node has that checksum |
| NodeStore.NodeStore.DeleteNodeById | src/CloudDrive/Cache/SQL.php:34-42 | Always returns true; the id's row is removed and nothing else changes |
| NodeStore.DeleteProperties | src/CloudDrive/Cache/SQL.php:34-42 | After deleting, the id is not found and every other id is found as before; deleting an absent id changes nothing; deleting twice is deleting once |
| NodeStore.NodeStore.DeleteAllNodes | src/CloudDrive/Cache/SQL.php:26-29 | The node table is empty and the configs table is unchanged |
| NodeStore.NodeStore.FindNodeById | src/CloudDrive/Cache/SQL.php:47-57 | Some iff the id has a row; the node returned is the row's raw record and carries that id |
| NodeStore.NodeStore.FindNodeByMd5 | src/CloudDrive/Cache/SQL.php:62-72 | None iff no cached node has the checksum; otherwise a cached node with that checksum |
| NodeStore.NodeStore.Select | src/CloudDrive/Cache/SQL.php:79-88 | Returns every cached node whose row the condition keeps, each once, and nothing else |
| NodeStore.NodeStore.FindNodesByName | src/CloudDrive/Cache/SQL.php:77-91 | Returns exactly the cached nodes whose name equals the argument, each once |
| NodeStore.NodeStore.GetNodeChildren | src/CloudDrive/Cache/SQL.php:96-110 | Returns exactly the cached nodes whose comma-joined parents string ends with the node's id, each once |
| NodeStore.LastParentIsChild | src/CloudDrive/Cache/SQL.php:98-101 | A node whose last parent is p is among p's children |
| NodeStore.SuffixMatchIsNotMembership | src/CloudDrive/Cache/SQL.php:100 | Parents ["p","q"] are not matched for p, and parents ["xp"] are |
| NodeStore.NodeStore.GetNodeChildrenByParent | src/CloudDrive/Cache/SQL.php:96-110 | Returns exactly the cached nodes that list the id among their parents, each once |
| NodeStore.NodeStore.LoadAccountConfig | src/CloudDrive/Cache/SQL.php:115-126 | Some iff the e-mail has a row, and then that row |
| NodeStore.NodeStore.SaveAccountConfig | src/CloudDrive/Cache/SQL.php:131-151 | Upserts the row under the account's e-mail, checkpoint included; the node table is unchanged |
| Drive.CloudDrive.BuildNodePath | src/CloudDrive/CloudDrive.php:87-110 | The loop computes the walk's specification `PathOf`: a root's own name; otherwise the names up the parents[0] chain below the first root, root side first, joined with '/'; a missing parent is NoParentNode |
| Drive.ClimbUnterminated | src/CloudDrive/CloudDrive.php:91-105 | The walk runs out of fuel iff each of the first fuel + 1 ancestors is cached and none of them is a root |
| Drive.ClimbFuelMonotone | src/CloudDrive/CloudDrive.php:91-105 | A walk that ends within some fuel gives the same answer with more fuel |
| Drive.TerminatedIsFinal | src/CloudDrive/CloudDrive.php:91-105 | A walk that ends within one step per cached node has reached the answer of any longer walk |
| Drive.RepeatedAncestor | src/CloudDrive/CloudDrive.php:97 | When more ancestors than cached nodes are found, two ancestor steps land on the same node |
| Drive.CyclicChainNeverEnds | src/CloudDrive/CloudDrive.php:91-105 | On a chain that repeats, every later ancestor is cached and is not a root |
| Drive.UnterminatedMeansCycle | src/CloudDrive/CloudDrive.php:91-105 | When the model's walk runs out of fuel, every ancestor at every depth is cached and not a root, so the source's loop never ends |
| Drive.GetPathArray | src/CloudDrive/CloudDrive.php:299-306 | An array is returned as it is; a string gives its '/'-pieces in order without the falsy ones ("" and "0") |
| Drive.PathEntriesClean | src/CloudDrive/CloudDrive.php:305 | Every piece of a string's path array is truthy and holds no '/' |
| Drive.GetPathString | src/CloudDrive/CloudDrive.php:315-322 | A string loses all leading and trailing '/'; an array is joined with '/' and loses surrounding white space only |
| Drive.GetPathStringCut | src/CloudDrive/CloudDrive.php:315-322 | The result is a contiguous piece of the string (or of the joined array): everything cut away before and after it is '/' (for an array, white space) |
| Drive.CloudDrive.GetRootNode | src/CloudDrive/CloudDrive.php:330-344 | Succeeds iff some cached node is named ROOT and has isRoot set, and returns such a node; fails with NoRootByName iff no node is named ROOT, and with NoRootNode iff some are but none is flagged root |
| Drive.CloudDrive.FindNodeByPath | src/CloudDrive/CloudDrive.php:244-264 | A falsy trimmed path is the root: success iff the cache has a root, and the result is then a root, otherwise the error getRootNode raised; any other path gives the first match over the same-named cached nodes; null iff no such node rebuilds to the path; a found node is cached, has the last segment as its name, and rebuilds to the trimmed path; an exception is the one a same-named cached node raised when its path was rebuilt |
| Drive.FirstPathMatchMeaning | src/CloudDrive/CloudDrive.php:257-263 | The search returns nothing iff every candidate rebuilds to another path; a found candidate rebuilds to the path and every earlier one rebuilt elsewhere; an error is one that a candidate's rebuild raised |
| Drive.ResolvedMeaning | src/CloudDrive/CloudDrive.php:251-263 | Over the same-named cached nodes, the search returns nothing iff the path is absent from the cache, and otherwise a same-named cached node that rebuilds to the path; an error is one a same-named cached node's rebuild raised |
| Drive.CloudDrive.NodeExists | src/CloudDrive/CloudDrive.php:356-408 | path_match iff the path is present in the cache; then success, and the node is the root (falsy path) or a cached node named by the last segment that rebuilds to the trimmed path, with md5_match iff a local MD5 is given and equals the node's; otherwise no node, success == md5_match, and md5_match iff some cached node has the local MD5. An exception comes only from getRootNode on a falsy path without a root, from rebuilding a same-named node's path, or, for an absent path, from rebuilding the path of a node carrying the local MD5 |
| Drive.CloudDrive.CreateFolder | src/CloudDrive/CloudDrive.php:165-200 | Returns the server's answer and caches the answered node only on success |
| Drive.CloudDrive.FindOrCreate | src/CloudDrive/CloudDrive.php:133-141 | The prefix is the one array_slice gives as written. A cached node found at it is reused without a request; a request is made iff the prefix is absent, for the folder's name under the previous node's id; the answer is returned and cached only on success; an error from the lookup changes nothing and is the one a node named like the folder raised when its path was rebuilt |
| Drive.ProbeFacts | src/CloudDrive/CloudDrive.php:133-134 | Each probed prefix is truthy, is unchanged by trimming '/', and has the current folder as its last segment |
| Drive.Probe | src/CloudDrive/CloudDrive.php:133-134 | The intended prefix at position i splits back into exactly the first i + 1 folders |
| Drive.ProbeAsWritten | src/CloudDrive/CloudDrive.php:133-134 | The prefix array_slice gives as written splits back into the first key + 1 folders, or all of them; it is the intended prefix whenever the keys are the positions |
| Drive.StepMeaning | src/CloudDrive/CloudDrive.php:132-143 | At every position of a walk, in the cache the earlier steps left: a request is made iff the probed prefix is absent, names the folder at that position, goes to the id of the node reached before it and carries the server's answer; a reused node is cached and rebuilds to the prefix; only the last request may be refused |
| Drive.WalkedPrefix | src/CloudDrive/CloudDrive.php:132-144 | The first steps of a walk are a walk: what the loop did up to any position stays as it was |
| Drive.WalkEnds | src/CloudDrive/CloudDrive.php:143-150 | A complete walk with no refusal ends at a cached node that rebuilds to the last probed prefix, or at the node the server created for the last folder |
| Drive.ProgressFound | src/CloudDrive/CloudDrive.php:134-143 | A node found at the probed prefix, cached and rebuilding to it, extends the walk with a reuse and becomes the previous node and the match; the cache is unchanged |
| Drive.ProgressCreated | src/CloudDrive/CloudDrive.php:135-143 | When the prefix is absent, the folder created under the previous node extends the walk with that request, is cached, and becomes the previous node and the match |
| Drive.ProgressRefused | src/CloudDrive/CloudDrive.php:135-138 | When the prefix is absent and the request is refused, the walk ends with that request and its answer is the loop's result; the cache is unchanged |
| Drive.ProgressStopped | src/CloudDrive/CloudDrive.php:134 | An exception from the lookup, raised by rebuilding a same-named node's path at the probed prefix, ends the loop with the steps taken so far and the cache unchanged |
| Drive.CloudDrive.Advance | src/CloudDrive/CloudDrive.php:132-144 | One pass of the foreach keeps the loop invariant: the cache is the start cache plus the created nodes, the steps are a walk (each request made only for an absent prefix, under the previous node's id), a failure is the last answer or an exception from rebuilding a node's path at the next prefix, and otherwise the previous node is the one the walk reached |
| Drive.CloudDrive.CreateSegments | src/CloudDrive/CloudDrive.php:131-152 | The steps are a walk over the folders and the cache is the start cache plus the nodes created; the first refused request is returned as it is; an exception stops the walk before the last folder, after a step that was not refused, and was raised rebuilding a same-named node's path at the next prefix in the cache as it then stood; on success every folder was stepped through and the result is the node reached (the start with no folders) |
| Drive.CloudDrive.CreateDirectoryPath | src/CloudDrive/CloudDrive.php:121-153 | Without a root it fails with getRootNode's error and changes nothing; with a root an exception is one the walk from the root stopped on (as for createSegments); otherwise it walks the path array from the root: a refusal is the last request's answer, and success means every prefix was reused or created under the previous node and the result is the node the walk reached |
| Drive.ProbeAsWrittenOnList | src/CloudDrive/CloudDrive.php:132-134 | When no piece was dropped, the prefix probed as written is the intended one |
| Drive.LeadingSlashProbe | src/CloudDrive/CloudDrive.php:132-134 | For "/a/b" the keys are 1 and 2, and the first probe as written is "a/b" where "a" is meant |
| Drive.CloudDrive.UploadFile | src/CloudDrive/CloudDrive.php:516-584 | The folder is the node createDirectoryPath made for the trimmed remote path; its refusal is returned (with a walk from the root ending in a refused request); an exception is either one createDirectoryPath stopped on or one nodeExists raised on the file's path in the cache the folders left; the existence check is nodeExists' meaning on that cache and path with the local MD5, so the target exists iff the file's path is present there; no overwrite means no upload; overwrite with matching checksums means no upload; overwrite otherwise replaces the existing node; no existing target means an upload under the folder; the cache is the one the folders left, plus the uploaded node on success |
| QueryFilter.Escape | src/CloudDrive/Filter.php:88-91 | Never shorter than the value; a value without special characters is unchanged |
| QueryFilter.UnescapeEscape | src/CloudDrive/Filter.php:88-91 | Dropping the escaping backslashes gives the value back: nothing is lost and the order is kept |
| QueryFilter.EscapeIsEscaped | src/CloudDrive/Filter.php:88-91 | In an escaped value every special character comes right after a backslash |
| QueryFilter.EscapeUnescape | src/CloudDrive/Filter.php:88-91 | Every such string is the escaping of its unescaped form, so escaping is a bijection onto them |
| QueryFilter.PutProperties | src/CloudDrive/Filter.php:60-73 | Assigning a field keeps one entry per field, stores the condition, and leaves every other field's condition unchanged |
| QueryFilter.PutOrder | src/CloudDrive/Filter.php:60-73 | Reassigning a field keeps the order of the fields; a new field goes last |
| QueryFilter.Filter.constructor | src/CloudDrive/Filter.php:32-35 | A new filter is empty |
| QueryFilter.Filter.AddEqualityFilter | src/CloudDrive/Filter.php:37-63 | Any field is accepted, and the escaped string is stored under it |
| QueryFilter.Filter.AddRangeFilter | src/CloudDrive/Filter.php:65-76 | "[" + the values joined with " TO " + "]", unescaped, is stored under the field |
| QueryFilter.Filter.BuildString | src/CloudDrive/Filter.php:78-86 | The field:condition clauses in insertion order joined with " AND "; "" for an empty filter |
| QueryFilter.AddKeepsPlace | src/CloudDrive/Filter.php:78-86 | After reassigning a field, the query string has that field's new clause in its old place and every other clause as before |
| NodePaths.PathArray | src/CloudDrive/Node.php:41-50 | An array is returned as it is; a string gives its '/'-pieces without the empty ones, with their split-position keys |
| NodePaths.PathArrayClean | src/CloudDrive/Node.php:47-49 | No element of a string's path array is empty or holds '/' |
| NodePaths.ZeroFolderKept | src/CloudDrive/Node.php:47-49 | A "0" piece is kept, under its key |
| NodePaths.PathString | src/CloudDrive/Node.php:52-59 | The result neither starts nor ends with white space, NUL, vertical tab or '/' |
| NodePaths.PathStringInfix | src/CloudDrive/Node.php:52-59 | The result is a contiguous piece of the joined path: only the ends are cut |
| NodePaths.JoinNoDoubleSlash | src/CloudDrive/Node.php:55 | Joining non-empty names that hold no '/' gives no "//" |
| NodePaths.NormalisedNoDoubleSlash | src/CloudDrive/Node.php:41-59 | getPathString(getPathArray(s)) holds no "//" |
| NodePaths.TrailingSlashProperties | src/CloudDrive/Node.php:22-25 | The normalised URL ends with '/'; a URL ending with '/' is unchanged; any other gets one '/'; normalising twice is normalising once |
| NodePaths.Node.constructor | src/CloudDrive/Node.php:17-25 | contentUrl is the account's content URL with the trailing '/' normalisation |
| RemoteFolder.GetLineageById | src/CloudDrive/Node/Folder.php:70-95 | The loop computes the walk's specification `LineageOf` |
| RemoteFolder.WalkShape | src/CloudDrive/Node/Folder.php:70-95 | A found lineage is empty iff the start has no parents; else it ends with the start, each folder's first parent is the one before it, and the first one's parent has no parents; a failure names an id the service does not know |
| RemoteFolder.EndlessClimbs | src/CloudDrive/Node/Folder.php:80-89 | A walk cut off by the bound made one more lookup than the bound, all answered |
| RemoteFolder.EndlessMeansCycle | src/CloudDrive/Node/Folder.php:80-89 | The bound only cuts off a walk that looks up some id twice: a cycle, on which the source loops forever |
| RemoteFolder.LineageMatchesPathAsWritten | src/CloudDrive/Node/Folder.php:128-143 | As written: a found lineage matches only a path of its length holding each folder's name under the folder's position as key; a failed lookup's two-entry response matches iff the path has two folders; a walk that does not end never matches |
| RemoteFolder.LineageMatchesPath | src/CloudDrive/Node/Folder.php:128-143 | As intended: a lineage matches iff its names, in order, are the path |
| RemoteFolder.MatchAgreesOnLists | src/CloudDrive/Node/Folder.php:136-140 | On a path keyed by position, the comparison as written agrees with the intended one for every found lineage |
| RemoteFolder.DoubleSlashMismatch | src/CloudDrive/Node/Folder.php:136-140 | For "a//b" the keys are 0 and 2, so the lineage a, b is rejected as written but matches as intended |
| RemoteFolder.DoubleSlashNotFound | src/CloudDrive/Node/Folder.php:113-125 | With folder b under a under the root, the lineage of b is a, b, and looking up "a//b" finds nothing as written but finds b as intended |
| RemoteFolder.ComparisonsAgreeOnLists | src/CloudDrive/Node/Folder.php:113-125 | On a path keyed by position, with no failed lineage lookup, the search gives the same answer under both comparisons |
| RemoteFolder.FailedLookupMatches | src/CloudDrive/Node/Folder.php:113-120 | A candidate whose lineage lookup failed matches any two-folder path as written, and is passed over as intended |
| RemoteFolder.ListByName | src/CloudDrive/Node/Folder.php:101-104 | The listing is asked with the query a fresh filter builds for the name, then kind FOLDER |
| RemoteFolder.NameQuery | src/CloudDrive/Node/Folder.php:153-163 | The query string is name: and the escaped name, then AND kind:FOLDER |
| RemoteFolder.FirstMatching | src/CloudDrive/Node/Folder.php:113-125 | The loop computes the first-match specification `FirstMatch` under the comparison as written |
| RemoteFolder.FirstMatchMeaning | src/CloudDrive/Node/Folder.php:113-125 | Under either comparison: a found folder is a candidate whose lineage matches, with every earlier one passed over; NotFound iff every candidate is passed over |
| RemoteFolder.PicksFound | src/CloudDrive/Node/Folder.php:113-121 | A candidate whose lineage matches, with all earlier ones passed over, is the one returned |
| RemoteFolder.FirstMatchOutcome | src/CloudDrive/Node/Folder.php:113-125 | A folder is found iff some candidate is picked; NotFound iff every candidate is passed over |
| RemoteFolder.GetRemoteByPath | src/CloudDrive/Node/Folder.php:97-126 | The listing is asked for the last name; no candidates gives success with no data; otherwise the first candidate whose lineage matches as written, or NotFound |
| RemoteFolder.RemoteFolderExists | src/CloudDrive/Node/Folder.php:187-201 | An empty path (after trimming, "0" included) exists; a non-empty one is decided by the search under the comparison given, the source's being AsWritten |
| RemoteFolder.RemoteFolderExistsMeaning | src/CloudDrive/Node/Folder.php:187-201 | Under either comparison, a non-empty path exists iff a listed candidate of its last name is picked, and does not exist iff every candidate is passed over |
| CommandConfig.DefaultsTyped | src/CloudDrive/Commands/Command.php:52-97 | The option table has one row per name and each default has its option's type |
| CommandConfig.NamesDistinct | src/CloudDrive/Commands/Command.php:52-97 | No two options share a name |
| CommandConfig.SettingIn | src/CloudDrive/Commands/Command.php:305-307 | None iff no row has the key; otherwise a row of the table with that name |
| CommandConfig.SettingAt | src/CloudDrive/Commands/Command.php:296-298 | Looking up a row's own name finds that row |
| CommandConfig.Coerce | src/CloudDrive/Commands/Command.php:308-314 | The stored value has its option's type |
| CommandConfig.CoerceKeepsTyped | src/CloudDrive/Commands/Command.php:308-314 | A value that has the option's type is stored unchanged |
| CommandConfig.CoerceIdempotent | src/CloudDrive/Commands/Command.php:308-314 | Coercing twice is coercing once |
| CommandConfig.FilterWord | src/CloudDrive/Commands/Command.php:310 | A word without surrounding white space is true iff its lower-case form is 1, true, on or yes |
| CommandConfig.FilterBoolTrue | src/CloudDrive/Commands/Command.php:310 | true validates as true |
| CommandConfig.FilterBoolFalse | src/CloudDrive/Commands/Command.php:310 | false and null validate as false |
| CommandConfig.FilterBoolIgnoresCase | src/CloudDrive/Commands/Command.php:310 | Lower-casing a string does not change how it validates |
| CommandConfig.FilterBoolIgnoresPadding | src/CloudDrive/Commands/Command.php:310 | White space around a string does not change how it validates |
| CommandConfig.Command.SetConfigValue | src/CloudDrive/Commands/Command.php:305-318 | A key outside the table changes nothing; an option takes the value coerced to its type; nothing else changes |
| CommandConfig.Command.RemoveConfigValue | src/CloudDrive/Commands/Command.php:288-291 | A known option is set back to its default; an unknown key is set to null |
| CommandConfig.Command.SetConfig | src/CloudDrive/Commands/Command.php:293-303 | The loop over the table leaves the bag equal to the fold `SetAll` over the table, in order |
| CommandConfig.SetAllSets | src/CloudDrive/Commands/Command.php:296-302 | With one row per name, every visited option holds its coerced chosen value |
| CommandConfig.SetAllOther | src/CloudDrive/Commands/Command.php:296-302 | A key no row names keeps its presence and value |
| CommandConfig.SetAllMeaning | src/CloudDrive/Commands/Command.php:293-303 | Every option holds the data's value when set there, else its default, coerced; every other key is untouched |
| CommandConfig.SetConfigMeaning | src/CloudDrive/Commands/Command.php:293-303 | The same for configValues itself |
| CommandConfig.ConfigReloads | src/CloudDrive/Commands/Command.php:293-303 | After setConfig every option is present with its own type, and running setConfig again on the saved bag leaves every option as it is |
| CommandConfig.EmptyDataGivesDefaults | src/CloudDrive/Commands/Command.php:278-286 | Without config data every option takes its default |
| CommandConfig.Command.GenerateCacheStore | src/CloudDrive/Commands/Command.php:153-168 | A SQLite store iff the driver is "sqlite"; a MySQL store with the four database options iff it is "mysql"; none iff it is neither |
| CommandConfig.DigitsBounds | src/CloudDrive/Commands/Command.php:121 | A number with d digits lies in [10^(d-1), 10^d) |
| CommandConfig.UnitIndexBounds | src/CloudDrive/Commands/Command.php:121 | The unit index k of a positive size satisfies 1000^k <= size < 1000^(k+1) |
| CommandConfig.UnitIndexUnique | src/CloudDrive/Commands/Command.php:121 | The unit index is k iff 1000^k <= size < 1000^(k+1) |
| CommandConfig.UnitSuffix | src/CloudDrive/Commands/Command.php:120-123 | The suffix is the unit at the index, or empty past YB |
| CommandConfig.SmallSizesInBytes | src/CloudDrive/Commands/Command.php:119-123 | A missing or zero size, and any size below 1000, is shown in B |
| CommandConfig.IntSizesHaveUnit | src/CloudDrive/Commands/Command.php:119-123 | Every size up to PHP_INT_MAX has at most 19 digits, so its unit index is at most 6 (EB) and the unit table lookup never falls off the end |
| Php.CompareZero | src/CloudDrive/Commands/Command.php:239 | The comparison is 0 iff the strings are equal |
| Php.CompareFlip | src/CloudDrive/Commands/Command.php:239 | Swapping the arguments negates the comparison |
| Php.CompareTransitive | src/CloudDrive/Commands/Command.php:239 | The comparison's order is transitive |
| CommandConfig.NameOrderTotal | src/CloudDrive/Commands/Command.php:238-240 | The strcasecmp order is total and transitive, and two names tie iff they are equal once lower-cased |
| CommandConfig.Insert | src/CloudDrive/Commands/Command.php:238-240 | One insertion step adds the node to the multiset and keeps a sorted sequence sorted |
| CommandConfig.SortByName | src/CloudDrive/Commands/Command.php:238-240 | The sorted nodes are a permutation of the input, in ascending case-insensitive name order |
| CommandConfig.VisibleMembers | src/CloudDrive/Commands/Command.php:249-252 | A node is shown iff it is in the input and is not trashed or the trash is shown; showing the trash shows everything |
| CommandConfig.VisibleCount | src/CloudDrive/Commands/Command.php:249-252 | A node is shown as often as it occurs, or never if it is trashed and the trash is hidden |
| CommandConfig.VisiblePermutation | src/CloudDrive/Commands/Command.php:236-252 | Filtering a permutation gives a permutation of the filtered nodes |
| CommandConfig.VisibleSorted | src/CloudDrive/Commands/Command.php:236-252 | Filtering sorted nodes leaves them sorted |
| CommandConfig.ListedFacts | src/CloudDrive/Commands/Command.php:234-274 | The printed nodes are the visible ones, each as often as in the input, sorted by name under the name sort |
| CommandConfig.Command.ListNodes | src/CloudDrive/Commands/Command.php:234-274 | Under the name sort, the visible nodes in case-insensitive name order; under any sort, a permutation of the visible input with the membership iff |

## Left out

- HTTP and transport: requests, OAuth, tokens, quota, `listFolders` pagination, and the upload and overwrite requests. Remote answers are oracle functions or maps passed in.
- Filesystem and clocks: `md5_file`, `fopen`, directory iteration, the config file read and write, and token renewal. The local MD5 is an input.
- Floats: `bytes / pow(1024, factor)` and `sprintf("%.2f")` in `convertFilesize`. Only the unit index and suffix are modelled.
- The SQL engine: transactions, `LIKE` wildcards and case-insensitivity, and the order of result rows. The children condition is modelled as a plain string suffix.
- The edge table and the changelog sync loop. `SQL.php` never uses the edge table, and the sync loop is not part of this model.
- CloudDrive::getChildren: it only passes through to the children lookup, which is modelled.
- The array branch of addEqualityFilter: it escapes array values before reading them, so its result is not well defined.
- The time sort of listNodes: its comparator returns a bool.
- Command.ListNodes: under a sort other than by name it is modelled as keeping the input order, and only membership and multiplicity are stated, not the order.
- Command.ListNodes: the order among names that tie under strcasecmp is the model's stable insertion order. PHP's usort does not promise it.
- The output formatting of listNodes: dates, padding, colour and file sizes.
- Node::inTrash is not part of this model. A node is taken to be in the trash when its status is "TRASH".
- ParameterBag::flatten is not part of this model. setConfig takes the data as already flattened.
- Numbers and arrays as config values: only strings, booleans and null are modelled.
- The raw values ConfigCommand stores, and all other Commands/* files.
- NodeStore.NodeStore.FindNodeByMd5: when several nodes share the checksum, which one is returned is not stated, because `find_one` fixes no order.
- NodeStore.NodeStore.Select: returns the rows in an unspecified order, because the queries have no ORDER BY. FindNodesByName and GetNodeChildren inherit this.
- Drive.CloudDrive.BuildNodePath: the walk has a fuel of one step per cached node. Where the source loops forever, it returns `Unterminated`. UnterminatedMeansCycle and TerminatedIsFinal show that the fuel loses nothing else.
- RemoteFolder.GetLineageById: the same fuel bound, one lookup per known folder, returns `Endless` where the source loops forever. EndlessMeansCycle shows that only a cycle gets there.
- RemoteFolder.LineageMatchesPathAsWritten: assumes that the error body of a failed metadata lookup has no `name` entry.
- Drive.CloudDrive.UploadFile: the server's answer to an overwrite is a boolean oracle. What overwriteFile does to the cache is not part of this model.
- CommandConfig.UnitSuffix: sizes above PHP_INT_MAX are not modelled. PHP turns them into floats, and `strlen` then counts the float's text (such as `1.0E+27`). The model takes every size as an integer.
- Drive.CloudDrive.CreateFolder: the parent is always the previous node's id. The default-to-root branch for a missing parent is not reached from createDirectoryPath.

## Findings

| source | as written | input that shows it | evidently intended | confidence | as-written member | corrected member |
|---|---|---|---|---|---|---|
| src/CloudDrive/Cache/SQL.php:100 | Children are the rows whose joined parents string ends with the id (`LIKE '%id'`) | A node with parents ["p","q"] is not a child of p; a node with parents ["xp"] is | The nodes that list the id among their parents | not executed | NodeStore.SuffixMatchIsNotMembership | NodeStore.NodeStore.GetNodeChildrenByParent |
| src/CloudDrive/CloudDrive.php:132-134 | The prefix length is the foreach key + 1, while array_slice counts positions; array_filter keeps the keys of the unfiltered split | "/a/b": the first folder is looked up as "a/b" instead of "a" | The first i + 1 folders at position i | not executed | Drive.LeadingSlashProbe | Drive.Probe |
| src/CloudDrive/Node/Folder.php:137 | The path is indexed by the lineage's position, but its keys are split positions | "a//b" gives keys 0 and 2, so the lineage a, b never matches | Compare names position by position | not executed | RemoteFolder.DoubleSlashNotFound | RemoteFolder.LineageMatchesPath |
| src/CloudDrive/Node/Folder.php:114-115 | A failed lineage lookup returns the two-entry failure response, which compares equal to any two-folder path | A candidate whose parent lookup fails, with the path "x/y" | A failed lookup is no match | not executed | RemoteFolder.FailedLookupMatches | RemoteFolder.FirstMatchMeaning |
