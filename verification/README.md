# persist_to_disk: the cached call, modelled in Dafny

`persist_to_disk` memoises a Python function on disk. A registered
function (a `Persister`) gets a cache directory derived from its source
file. On every call, a per-call switch keyword, or the function's own
fixed setting, picks one of four modes. The switch keyword is named by
`switch_kwarg`: `cache` when a `Persister` is built directly,
`cache_switch` through the `persistf` decorator. The modes are:

- NOCACHE = 0 calls the function directly.
- CACHE = 1 reads the stored result or computes and stores it.
- RECACHE = 2 always computes and overwrites.
- READONLY = 3 reads, and fails on a miss.

In every mode the arguments are first bound into one name-to-value dict
(defaults, then positional arguments, then keywords). NOCACHE calls the
function with that dict as keywords. Every other mode normalises it
further:

- the skip names are removed;
- the expand names are flattened one level into `name|subkey` entries;
- the groupby arguments are popped into extra directory levels;
- the remaining items, sorted by name, form the cache key;
- a hash of the key modulo `hashsize` picks the bucket file `<index>.pkl`,
  a pickled dict from keys to results;
- the key is looked up in, or stored into, that dict, which raises
  `TypeError` when the key holds a dict (an argument left unexpanded).

The model covers that pipeline end to end:

- `ArgBinding`: argument binding.
- `KwargCleaning`: skipping and flattening.
- `BucketLocator`: grouping, sorting, hashing, directory creation.
- `CacheStore`: bucket reads and writes.
- `CacheController`: the mode dispatch of `Persister.__call__` and the
  registration-time argument check.
- `PersistDir`: the function's cache directory, with or without a
  project path.
- `Utils`: the two helpers from `_utils.py`.
  - `make_dir_if_necessary`: nested directory creation under a depth
    budget.
  - `retrieve_id`: the `key||id` table that numbers modules outside any
    project.

The file system is a class `Utils.FileSystem` with three fields:

- the set of existing directories;
- the bucket files (a bucket map, or bytes pickle cannot load);
- the id-table files (their lines).

Operations that touch files are methods that modify it. Each method is
proved equal to a specification function (`Locate`, `WriteOutcome`,
`WriteIfNecessaryOutcome`, `CallOutcome`, `DirsAfter`), and the
properties are proved as lemmas about those functions.

Python's semantics are written out where they matter:

- `%` on a negative operand floors (`BucketLocator.PyDivMod`);
- `int()` of the switch value (`CacheController.IntOf`);
- `sorted` compares names by code point (`Text.Less`);
- `str.replace` replaces every occurrence (`Text.ReplaceAll`);
- the `posixpath` join, dirname and splitext behave as Python's do
  (`OsPath`), and so does basename (`PersistDir.BaseName`);
- dict `pop` raises `KeyError` on a missing name;
- a key tuple holding a dict cannot be hashed (`CacheStore.Hashable`).

The MD5-of-pickle hash and `str()` of a dict are parameters of the model
(`BucketLocator.Env`). The wrapped function is a parameter returning
`None` when it raises.

## Model

| member | source | states |
|---|---|---|
| `Values.DistinctElems` | persist_to_disk/persister.py:177-179 | a list's set of elements is as large as the list exactly when its elements are distinct, so the length comparison in the argument check means "no name repeated" |
| `Text.ParseIntToString` | persist_to_disk/persister.py:231 | `int()` of the decimal string of any integer gives back that integer |
| `Text.ParseInt` | persist_to_disk/persister.py:231 | `int()` reads a number only from a non-empty string, and a negative number only after a leading minus |
| `Text.NatToStringInjective` | persist_to_disk/_utils.py:65 | different counters give different `str()` ids |
| `Text.LessTotal` | persist_to_disk/persister.py:165 | code-point order on argument names is total, so `sorted` has exactly one answer |
| `Text.LessTransitive` | persist_to_disk/persister.py:165 | code-point order on argument names is transitive |
| `Text.LeastExists` | persist_to_disk/persister.py:165 | every non-empty set of names has a least name under the order `sorted` uses |
| `Text.Less` | persist_to_disk/persister.py:165 | a name sorts before only a non-empty name, and never before a name with a smaller first character |
| `Text.ReplaceLeading` | persist_to_disk/persister.py:56-57 | `str.replace` on a string that starts with the pattern puts the replacement first and goes on replacing in the rest |
| `Text.ReplaceAbsent` | persist_to_disk/persister.py:56-57 | `str.replace` leaves a string without the pattern unchanged |
| `Text.ReplaceAll` | persist_to_disk/persister.py:56-57 | replacing a pattern by one of the same length keeps the length; replacing a pattern by itself changes nothing |
| `Text.SplitJoinedName` | persist_to_disk/persister.py:153 | a flattened name, `k` then a bar then `kk`, with a bar-free `k` splits back into `k` and `kk` at its first bar |
| `OsPath.JoinAllSnoc` | persist_to_disk/persister.py:158-163 | extending the cache directory one groupby level at a time equals joining all levels at once |
| `OsPath.JoinAllPlain` | persist_to_disk/persister.py:163 | for segments with no leading or trailing slash, the joined directory is the segments separated by single slashes |
| `OsPath.JoinKeeps` | persist_to_disk/persister.py:163 | `os.path.join` ends with its second part, and starts with its first part unless the second is absolute |
| `OsPath.DirName` | persist_to_disk/_utils.py:46 | `os.path.dirname` is a prefix of the path, and empty for a path without a slash |
| `OsPath.SplitExtRoot` | persist_to_disk/persister.py:42 | the `splitext` root is a prefix of the path and, when anything was dropped, the dropped part starts with a dot |
| `OsPath.SplitExtPy` | persist_to_disk/persister.py:41-42 | for a `.py` file whose name is more than the extension, `splitext` drops exactly the `.py` |
| `Utils.FirstExisting` | persist_to_disk/_utils.py:43-47 | counts the missing directories from the target upwards: all below the count are missing, the one at the count exists when it is in range |
| `Utils.DirsAfter` | persist_to_disk/_utils.py:32-52 | directory creation only adds directories and leaves the target existing; it fails only when the target is missing |
| `Utils.MakeDirOutcome` | persist_to_disk/_utils.py:32-52 | directory creation succeeds exactly when the target, or one of its first `max_depth + 1` ancestors, exists; then, for the first existing ancestor, the target and every ancestor below it exist, and nothing else is added |
| `Utils.FileSystem.MakeDirIfNecessary` | persist_to_disk/_utils.py:32-52 | the recursive creation leaves exactly the directories `DirsAfter` names, reports failure of the depth assertion with no directory created, and changes no file |
| `Utils.TableOfHas` | persist_to_disk/_utils.py:63 | every key written on a line of the table is a key of the dict built from the lines |
| `Utils.TableOfOnly` | persist_to_disk/_utils.py:63 | every key of the dict built from the lines was written on some line |
| `Utils.WellFormedLookup` | persist_to_disk/_utils.py:55-68 | in a table only `retrieve_id` wrote, the n-th line's key maps to id `str(n)`, and the dict has one entry per line |
| `Utils.WellFormedIdsDistinct` | persist_to_disk/_utils.py:64-65 | two different modules never share an id in such a table |
| `Utils.AppendKeepsWellFormed` | persist_to_disk/_utils.py:64-67 | appending a new key with id `str(len + 1)` keeps the table well formed |
| `Utils.FileSystem.RetrieveId` | persist_to_disk/_utils.py:55-68 | a known key returns its recorded id and leaves the table alone; a new key gets `str(n + 1)` for n entries and one appended line; afterwards the table maps the key to the returned id, a well-formed table stays well formed, and nothing else changes |
| `ArgBinding.AssignAt` | persist_to_disk/persister.py:136-139 | assigning names to values pairwise sets each of the first `min(len)` names to its paired value and leaves every other name as it was |
| `ArgBinding.Bind` | persist_to_disk/persister.py:127-141 | binding succeeds exactly when the function has no `*args` and there are no more positional arguments than parameters; `*args` is rejected first |
| `ArgBinding.BindPrecedence` | persist_to_disk/persister.py:131-140 | name by name: an explicit keyword wins, then a positional argument, then the parameter's default, then a keyword-only default; no other name is bound |
| `ArgBinding.GetFullKwargs` | persist_to_disk/persister.py:127-141 | the loop of updates builds the dict `Bind` specifies, error cases included |
| `KwargCleaning.Prefixed` | persist_to_disk/persister.py:153 | the flattened entries are exactly `k`, a bar and `kk` for each sub-key `kk`, carrying its value |
| `KwargCleaning.ExpandNamed` | persist_to_disk/persister.py:150-153 | list-mode flattening fails only on a listed name holding a non-dict, and leaves the arguments unchanged when no listed name is present |
| `KwargCleaning.ExpectedAt` | persist_to_disk/persister.py:150-153 | the value a name should hold after flattening; with no expand names every argument keeps its value and no other name appears |
| `KwargCleaning.PrefixedHas` | persist_to_disk/persister.py:153 | a name is among the flattened entries of a bar-free `k` exactly when it splits into `k` and a sub-key of the dict |
| `KwargCleaning.ExpandStepKeepsExpected` | persist_to_disk/persister.py:150-153 | flattening one listed dict argument keeps every other name's expected final value |
| `KwargCleaning.SkipStepKeepsExpected` | persist_to_disk/persister.py:150-151 | a listed name that is absent is skipped without changing any expected value |
| `KwargCleaning.ExpandNamedCharacterised` | persist_to_disk/persister.py:144-154 | list-mode cleaning succeeds exactly when every listed name that is present holds a dict; on success each name holds the value it should after all flattening steps |
| `KwargCleaning.ExpandNamedKeeps` | persist_to_disk/persister.py:150-153 | an argument that is not listed for expansion survives cleaning |
| `KwargCleaning.LeavesSplit` | persist_to_disk/persister.py:117-123 | the leaves of a dict are the leaves of one entry together with the leaves of the rest |
| `KwargCleaning.ExpandDictRecursive` | persist_to_disk/persister.py:114-124 | every entry of the result is a non-dict leaf of the input under its bar-joined path, and every leaf's path is a name of the result, for any order of visiting keys |
| `KwargCleaning.SubLeaves` | persist_to_disk/persister.py:118-121 | the flattened sub-dict of a dict argument, stored under the argument's name and a bar, holds exactly the leaves that argument contributes |
| `KwargCleaning.CleanKwargs` | persist_to_disk/persister.py:144-154 | skip names are dropped first; list mode then gives what `ExpandNamed` specifies, and 'all' mode always succeeds with exactly the leaves of the remaining arguments |
| `KwargCleaning.LeafShape` | persist_to_disk/persister.py:118-123 | a leaf under a dict argument has a name that starts with the argument's name and a bar; a leaf under a plain argument is the argument itself |
| `KwargCleaning.BarFreeUnambiguous` | persist_to_disk/persister.py:114-124 | when no key at any depth contains a bar, no two leaves share a flattened name |
| `KwargCleaning.TopLevelLeaves` | persist_to_disk/persister.py:122-123 | a plain top-level argument with a bar-free name is flattened to itself and to nothing else; an empty dict argument disappears |
| `KwargCleaning.FlattenExact` | persist_to_disk/persister.py:114-124 | when names are unambiguous, a result holding exactly the leaves maps each leaf's name to that leaf's value |
| `BucketLocator.PopAllSpec` | persist_to_disk/persister.py:158-162 | popping a list of names succeeds exactly when they are distinct and all present, returns their values in order and removes exactly them; otherwise a `KeyError` |
| `BucketLocator.PopAll` | persist_to_disk/persister.py:160-162 | popping gives one value per name, and fails only with a `KeyError` on one of the names |
| `BucketLocator.GroupDirs` | persist_to_disk/persister.py:158-163 | the groupby loop gives one directory level per entry, and fails only with a `KeyError` |
| `BucketLocator.Render` | persist_to_disk/persister.py:159-162 | `str()` of a string is that string, and `str()` of an int reads back as that int |
| `BucketLocator.Segment` | persist_to_disk/persister.py:159-162 | an entry with one value names the directory `str()` of that value, so a one-name tuple gives the same level as the plain name |
| `BucketLocator.GroupDirsOk` | persist_to_disk/persister.py:158-163 | the groupby loop succeeds exactly when all popped names are distinct and present; otherwise a `KeyError` |
| `BucketLocator.GroupDirsRest` | persist_to_disk/persister.py:158-163 | the loop yields one directory level per groupby entry and leaves the arguments minus every groupby name |
| `BucketLocator.GroupDirsSegments` | persist_to_disk/persister.py:159-162 | the level for a plain entry is `str()` of its value; for a tuple, the values' strings joined by `$$` |
| `BucketLocator.Least` | persist_to_disk/persister.py:165 | picks the least argument name of a non-empty set |
| `BucketLocator.SortedItems` | persist_to_disk/persister.py:165 | the key lists every remaining argument with its value, names strictly increasing |
| `BucketLocator.ListsHead` | persist_to_disk/persister.py:165 | the first item of any sorted listing is the least name |
| `BucketLocator.ListsTail` | persist_to_disk/persister.py:165 | a sorted listing without its head lists the arguments without that name |
| `BucketLocator.ListingUnique` | persist_to_disk/persister.py:165 | any two sorted listings of the same arguments are equal, so the key does not depend on dict order |
| `BucketLocator.PyDivMod` | persist_to_disk/persister.py:166 | Python's `%`: the dividend is quotient times divisor plus remainder, and the remainder lies on the divisor's side of zero, so the index is in `[0, hashsize)` for a positive hashsize |
| `BucketLocator.GroupDirsAre` | persist_to_disk/persister.py:158-163 | a successful groupby loop yields exactly those levels, in groupby order |
| `BucketLocator.LocateNeeds` | persist_to_disk/persister.py:157-167 | a bucket is located only when the groupby names are distinct and all present and hashsize is not zero |
| `BucketLocator.LocateKey` | persist_to_disk/persister.py:157-165 | the key of a located bucket lists exactly the cleaned arguments that are not groupby names, sorted by name |
| `BucketLocator.LocateFile` | persist_to_disk/persister.py:157-167 | the bucket file is `<index>.pkl`, with the index in `[0, hashsize)` for a positive hashsize, in the cache directory extended by the groupby levels, and that directory exists afterwards |
| `BucketLocator.LocateIdempotent` | persist_to_disk/persister.py:157-167 | locating again from the directories the first call left finds the same bucket and creates nothing |
| `BucketLocator.Locate` | persist_to_disk/persister.py:157-167 | locating only adds directories; it fails only with a groupby `KeyError`, the depth assertion or a zero hashsize; a located bucket file's name ends in `.pkl` |
| `BucketLocator.PopNames` | persist_to_disk/persister.py:160-162 | the pops of one groupby entry, name by name, give what `PopAll` specifies |
| `BucketLocator.GroupPath` | persist_to_disk/persister.py:158-163 | the groupby loop, entry by entry, gives the directory extended by the segments `GroupDirs` specifies and the remaining arguments, or its `KeyError` |
| `BucketLocator.GetHashedPathAndKey` | persist_to_disk/persister.py:157-167 | the loop, directory creation and hashing give the bucket and directories `Locate` specifies, a zero hashsize failing after the directory is created; no file changes |
| `CacheStore.Normalised` | persist_to_disk/persister.py:68-74 | repairing an unreadable or missing bucket as `{}` changes what no bucket holds and no other file |
| `CacheStore.StoreEntry` | persist_to_disk/persister.py:75-77 | writing sets one key of one bucket and leaves every other file alone |
| `CacheStore.Stored` | persist_to_disk/persister.py:67-74 | an entry is found only in a bucket file that loads, and the read gives exactly that file's dict |
| `CacheStore.PersistRw` | persist_to_disk/persister.py:65-78 | a read returns the stored bucket and repairs it; a write with a hashable key returns and stores the bucket with the key set; a write with an unhashable key raises after the repair and stores nothing; directories and id tables are untouched |
| `CacheStore.WriteOutcome` | persist_to_disk/persister.py:81-94 | with alternative roots nothing is computed; otherwise the function is called once; the call succeeds exactly when the function returns and the key is hashable, and then the value is stored under the key; a raising function stores nothing; an unhashable key raises after the call, once the bucket is read and repaired, and no bucket's contents change; other buckets keep their contents |
| `CacheStore.WriteIfNecessaryOutcome` | persist_to_disk/persister.py:97-110 | an unhashable key raises after the read, without computing; a stored hashable key is returned without computing; the function runs only on a miss outside read-only mode; a success leaves the result in the bucket; a failure changes no bucket's contents |
| `CacheStore.PersistWrite` | persist_to_disk/persister.py:81-94 | the method's result, calls and new state are those of `WriteOutcome` |
| `CacheStore.PersistWriteIfNecessary` | persist_to_disk/persister.py:97-110 | the method's result, calls and new state are those of `WriteIfNecessaryOutcome` |
| `CacheController.IntOf` | persist_to_disk/persister.py:231 | `int()` keeps an int, fails on a dict, and fails only with the switch error |
| `CacheController.IntOfString` | persist_to_disk/persister.py:231 | a switch given as the string of a number selects that number |
| `CacheController.Prepare` | persist_to_disk/persister.py:229-233 | the call prepares exactly when the switch converts and binding succeeds; the switch is removed from the keywords; the function's own setting overrides the switch, which defaults to CACHE |
| `CacheController.Cleaned` | persist_to_disk/persister.py:144-154 | cleaning fails only on a listed expand name holding a non-dict, and only drops the skip names when no listed name survives them |
| `CacheController.CallOutcome` | persist_to_disk/persister.py:229-244 | a call invokes the function at most once; an error after invoking it is the function's own failure or the `TypeError` of an unhashable key; no failing call changes any bucket's contents |
| `CacheController.Call` | persist_to_disk/persister.py:229-244 | the steps of `__call__` give the result, calls and new state `CallOutcome` specifies, and leave the id tables alone |
| `CacheController.NoCacheTouchesNothing` | persist_to_disk/persister.py:234-235 | NOCACHE calls the function once with every bound argument as a keyword, returns its value, and touches no directory or file |
| `CacheController.CacheHit` | persist_to_disk/persister.py:240-244 | in any mode but NOCACHE and RECACHE, a hashable key already in its bucket is returned without calling the function or changing any bucket's contents |
| `CacheController.CacheMiss` | persist_to_disk/persister.py:242-244 | CACHE on a miss of a hashable key calls the function once with the call's own arguments (switch removed) and stores its value under the key, other buckets unchanged |
| `CacheController.ReadonlyMissFails` | persist_to_disk/persister.py:242-244 | READONLY on a miss of a hashable key fails without calling the function or changing any bucket's contents |
| `CacheController.RecacheOverwrites` | persist_to_disk/persister.py:240-241 | RECACHE with a hashable key always calls the function, ignores alternative roots, and overwrites the entry with the new value |
| `CacheController.UnhashableKeyFails` | persist_to_disk/persister.py:75-105 | in every cached mode a key holding a dict fails with `TypeError` once the bucket is read: CACHE and READONLY without calling the function, RECACHE after calling it (or with the function's own failure); no bucket's contents change |
| `CacheController.Memoised` | persist_to_disk/persister.py:229-244 | after a successful cached-mode call, the same call in a reading mode returns the same value without calling the function or creating directories |
| `CacheController.CheckArguments` | persist_to_disk/persister.py:175-180 | the settings pass exactly when no special entry repeats and the switch is not one of them |
| `CacheController.TupleOverlapPasses` | persist_to_disk/persister.py:175-180 | groupby `[("a", "b")]` with skip `["a"]` passes the check, yet grouping the cleaned arguments raises `KeyError` on `a` |
| `CacheController.CheckArgumentsFlat` | persist_to_disk/persister.py:175-180 | the corrected check passes exactly when no name repeats once tuples are flattened and the switch is none of them |
| `CacheController.FlatCheckGroupsFound` | persist_to_disk/persister.py:144-163 | under the corrected check, cleaning keeps every groupby name, so grouping succeeds whenever the call binds all of them |
| `PersistDir.PersistDirOfProjectFile` | persist_to_disk/persister.py:40-58 | a module whose path starts with the project path, and does not repeat it, gets the base directory followed by its path relative to the project |
| `PersistDir.ReplaceOnlyLeading` | persist_to_disk/persister.py:56-57 | replacing a pattern that occurs only at the start swaps just that occurrence |
| `PersistDir.GetPersistDirFromPaths` | persist_to_disk/persister.py:40-58 | with a project path, the directory is found exactly when the file ends in `.py` and the project path occurs in the extension-free path, the `.py` check coming first; with a base directory as long as the project path, the directory is as long as the extension-free path |
| `PersistDir.CacheDirCollision` | persist_to_disk/persister.py:51-58 | as written, `/p/x/p/y.py` and `/p/x/c/y.py` under project `/p` with base `/c` both get directory `/c/x/c/y` |
| `PersistDir.GetPersistDirUnderProject` | persist_to_disk/persister.py:51-58 | the corrected branch succeeds only for a `.py` file under the project, and its directory starts with the base directory |
| `PersistDir.UnderProjectInjective` | persist_to_disk/persister.py:51-58 | with leading-directory replacement, different modules always get different directories |
| `PersistDir.UnderProjectAgrees` | persist_to_disk/persister.py:51-58 | the corrected and as-written branches agree on every path that does not repeat the project path |
| `PersistDir.GetPersistDirNoProject` | persist_to_disk/persister.py:44-50 | without a project: `<base>/.hashed` is created, the module's id is recorded in `mapping.txt`, and the directory is `<base>/.hashed/<basename>-<id>`; a non-`.py` file or a failed creation changes nothing |

## Left out

- File locks (`myfilelock.FileLock`) and `Timeout` re-raising: the model is sequential. In `_persist_write_if_necessary` another process could write between the read and the write; that is not modelled.
- The MD5-of-pickle hash (`_hash`) and `str()` of a dict value are parameters (`BucketLocator.Env`), not computed; byte-level pickling is not modelled.
- `os.path.normpath` (persister.py lines 40, 52, 57, 58) is not modelled: paths are taken as already normal.
- `Persister.__init__` beyond `_check_arguments` is not modelled. This covers `config.py`, the `hashsize or config.get_hashsize()` fallback, the `__main__` assertion, the `freq` assertion, the creation of the function's own directory, and `functools.update_wrapper`. The registered function's settings are plain fields of `CacheController.Persister`.
- `_check_arguments` receives lists from `__init__`. A string `expand_dict_kwargs` such as `'all'` fails there on list concatenation. So a registered function always cleans in list mode (`CacheController.Cleaned`); 'all' mode is modelled only in `KwargCleaning.CleanKwargs`.
- Alternative roots are modelled only as the `NotImplementedError` they raise.
- `Persister.clear`, `persist_func_version`, the package API in `__init__.py`, `_print` and debugging output are not part of this model.
- Argument values are ints, strings and dicts (`Values.Value`). Other Python values are not modelled, and they would behave differently from all three: a list is unhashable, so a key holding one raises `TypeError` as an unexpanded dict does; `int()` truncates a float switch (`2.7` selects RECACHE) and turns `True` into 1 (persister.py line 231); `str()` of a bool or a float names a groupby directory such as `True` or `0.001` (lines 159-163).
- `copy.deepcopy` of the keywords is not modelled: model values are immutable.
- Exceptions inside the wrapped function are a `None` result. Side effects of the function are not modelled.
- `Text.ParseInt` (the `int()` of a switch string) accepts an optional sign and ASCII digits only; whitespace, underscores and non-ASCII digits are not modelled.
- `KwargCleaning.ExpandDictRecursive`: Python dict insertion order is not modelled, so when two leaves flatten to the same name (a key containing `|`), the contract says only that the kept value is one of those leaves. `KwargCleaning.FlattenExact` pins the value when names are unambiguous.
- `KwargCleaning.ExpandNamedCharacterised` states its characterisation only for expand names without a `|`. `ExpandNamedKeeps` holds for all names.
- `Utils.FileSystem.RetrieveId`: table lines are modelled as parsed `(key, id)` pairs. A key containing `||`, and a malformed line that makes `dict()` raise, are not modelled.
- Writing a bucket into a directory that does not exist is not modelled, because the bucket's directory is always created first.
- `BucketLocator.LocateFile` states the range of the bucket index only for a positive hashsize. `PyDivMod` states the negative case.

## Findings

| source | as written | input that shows it | evidently intended | confidence | as-written member | corrected member |
|---|---|---|---|---|---|---|
| persist_to_disk/persister.py:53-57 | the project path only has to occur somewhere in the module path, and every occurrence is replaced by the base directory | base `/c`, project `/p`: modules `/p/x/p/y.py` and `/p/x/c/y.py` both get cache directory `/c/x/c/y`, so their functions share buckets | replace only the leading project directory, so different modules get different cache directories | medium; not executed | `PersistDir.GetPersistDirFromPaths`, `PersistDir.CacheDirCollision` | `PersistDir.GetPersistDirUnderProject`, `PersistDir.UnderProjectInjective` |
| persist_to_disk/persister.py:177-180 | a groupby tuple counts as one special entry, so its names are never compared with the skip and expand names | groupby `[("a", "b")]`, skip `["a"]`: the check passes, and every cached call then raises `KeyError: 'a'` while grouping | count each name inside a tuple, so that every name the check admits is still present when grouping | medium; not executed | `CacheController.CheckArguments`, `CacheController.TupleOverlapPasses` | `CacheController.CheckArgumentsFlat`, `CacheController.FlatCheckGroupsFound` |
