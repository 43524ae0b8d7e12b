# move_homedir in Dafny

`move_homedir.cpp` is a Windows utility that walks the registry and rewrites every
string value that mentions one user's profile directory (`Users\from`) so that it
names another one (`Users\to`). Its core is two routines and one class:

- `Replace`, a find-and-replace loop over a wide string;
- `iter`, a recursive depth-first walk of a registry key that visits every subkey
  (opening each through a `RegKey`) and then every value of the key, and rewrites
  the matching string values in place while counting them;
- `RegKey`, which opens a key under its parent, records whether the open succeeded
  and the error code, reads the subkey and value counts, and closes the handle when
  it is destroyed.

The model has five modules.

- `StringReplace` (`replace.dfy`): `Find` is the search of `std::wstring::find`,
  `ReplaceAll` is leftmost, non-overlapping replace-all, and the method `Replace` is
  the source's `while (true)` loop. It is proved equal to `ReplaceAll` of the original
  string, with the loop invariant "the part before `pos` followed by the replace-all
  of the rest is the final answer".
  Replace-all can in general leave the needle behind (replacing `ab` by `a` in
  `aabb` gives `aab`), so "no occurrence remains" and "a second pass changes
  nothing" are not properties of `Replace` as such. They hold for the program's
  fixed pair: no non-empty suffix of `Users\to` and no proper suffix of `Users\from`
  is a prefix of `Users\from`, so no occurrence survives and a second pass is the
  identity.
- `RegistryTree` (`registry.dfy`): the registry as a tree of values. Each key
  carries the outcome that opening it gives. Its subkeys and values come in
  enumeration order, each with the outcome of enumerating, reading and writing it.
  Keys are addressed by their path of subkey indices.
- `WalkSpec` (`walk.dfy`): `Walk` is the pure definition of what `iter` does. It
  returns the return value, the tree afterwards, and the list of attempted
  write-backs, whose length is what `iter` adds to `count`. The lemmas state the
  walk's policy:
  - the walk returns true exactly when no reachable entry is a hard error;
  - a successful walk rewrites exactly the matching values and counts them;
  - write-backs happen in depth-first order, subtrees before the key's own values;
  - every write-back is of a matching string value, and none is repeated;
  - a failed write-back is the last one;
  - after a hard error, later siblings and the key's values play no part;
  - walking again what a successful walk left succeeds and changes and counts nothing.
- `MoveHomedir` (`homedir.dfy`) models the program itself:
  - class `Registry` stands for the Win32 calls. It holds the tree, a multiset of
    open handles and a log of `RegSetValueEx` calls.
  - class `RegKey` follows the source's class.
  - the methods `Iter`, `IterSubkeys`, `WalkChild` and `IterValues` are `iter`'s
    loops. Each is proved to change the registry, the log and the counter exactly as
    `Walk` says, and to leave no handle open.
- `Scenarios` (`scenarios.dfy`): concrete walks over small trees:
  - a moved profile path;
  - another user's path;
  - an access-denied sibling;
  - a value naming the old profile twice;
  - an open error.

The counter counts attempted write-backs, not successful ones. `count++` comes
before `RegSetValueEx`, so a value whose write fails is counted, and the walk then
stops (move_homedir.cpp:324, 331-338). The model follows the code.

## Model

| member | source | states |
|---|---|---|
| StringReplace.Find | move_homedir.cpp:226-228 | the result is the lowest index at or after `pos` where the needle occurs, or none when there is no occurrence from `pos` on |
| StringReplace.Contains | move_homedir.cpp:323 | `wcsstr(data, FROM_NAME) != NULL` holds exactly when the needle occurs somewhere in the string |
| StringReplace.Replace | move_homedir.cpp:219-235 | the loop ends and returns leftmost, non-overlapping replace-all of the original haystack; the input is not changed |
| StringReplace.ScanStep | move_homedir.cpp:226-231 | one splice at the first match at or after `pos`, with the scan resuming past the inserted text, keeps the final answer; inserted text is never rescanned |
| StringReplace.ScanDone | move_homedir.cpp:226-228 | when `find` reports no further match the string built so far is the final answer |
| StringReplace.ReplaceAllFirstMatch | move_homedir.cpp:226-231 | the result is the text before the first occurrence, then the replacement, then replace-all of the text after that occurrence |
| StringReplace.ReplaceAllNoMatch | move_homedir.cpp:219-228 | a haystack in which the needle does not occur is returned unchanged |
| StringReplace.ReplaceAllUnchanged | move_homedir.cpp:219-231 | the result equals the haystack exactly when the replacement equals the needle or the needle does not occur |
| StringReplace.ReplaceAllLength | move_homedir.cpp:226-231 | the result's length is `\|h\| + k * (\|r\| - \|n\|)`, where k is the number of non-overlapping occurrences |
| StringReplace.CountPositive | move_homedir.cpp:226-231 | the number of occurrences replaced is positive exactly when the needle occurs |
| StringReplace.ReplaceAllSelf | move_homedir.cpp:226-231 | replacing the needle by itself changes nothing |
| StringReplace.ChangedLength | move_homedir.cpp:226-231 | when the needle occurs and the replacement differs in length, the length changes |
| StringReplace.ChangedAtFirstMatch | move_homedir.cpp:226-231 | when the needle occurs and a different replacement of the same length is used, the result differs from the haystack |
| StringReplace.ReplaceAllCanLeaveNeedle | move_homedir.cpp:219-235 | in general a replacement can leave the needle behind: replacing `ab` by `a` in `aabb` gives `aab`, which still contains `ab`, so a second pass would change it again |
| StringReplace.NoOccurrenceLeft | move_homedir.cpp:219-235 | no occurrence of the needle is left when the needle's first character occurs nowhere else in it, the replacement starts with that character and has it nowhere else, and the two differ at some index they share |
| StringReplace.EmptyNeedleNeverStops | move_homedir.cpp:225-232 | with an empty needle `find` always succeeds at `pos` and each round only grows the string, so the loop terminates only for a non-empty needle |
| WalkSpec.Walk | move_homedir.cpp:254-345 | the definition of `iter` on an opened key: the subkey loop, then, if it finished, the value loop; the key's open outcome and its numbers of subkeys and values are kept (its behaviour is stated by the lemmas below) |
| WalkSpec.WalkSubkeys | move_homedir.cpp:259-292 | the subkey loop from index `\|done\|` on: stops with false on an enumeration error or an open error other than not-found or access-denied, walks every child that opens and stops when that walk fails, skips the tolerated ones; the key's values are not touched |
| WalkSpec.WalkValues | move_homedir.cpp:294-343 | the value loop from index j on: stops with false on an enumeration error or a read error other than unsupported type, skips non-string and non-matching values, writes back each matching value and stops when that write fails; the subkeys are not touched |
| WalkSpec.Matches | move_homedir.cpp:321-323 | a value is rewritten when `RegGetValue` read it as a string and FROM_NAME occurs in its NUL-terminated data |
| WalkSpec.NewData | move_homedir.cpp:327-328 | the data written back is `Replace` of the NUL-terminated data, FROM_NAME by TO_NAME (`NoFromNameLeft`: no FROM_NAME is left in it) |
| WalkSpec.Tolerated | move_homedir.cpp:272-277 | the open errors for which a subkey is skipped and the walk goes on: not-found and access-denied |
| WalkSpec.NoFromNameLeft | move_homedir.cpp:29-30 | for the program's fixed pair, `Replace(s, FROM_NAME, TO_NAME)` contains no FROM_NAME, whatever `s` is |
| WalkSpec.ReplaceTwice | move_homedir.cpp:328 | replacing FROM_NAME by TO_NAME a second time changes nothing |
| WalkSpec.RewrittenValueSettled | move_homedir.cpp:321-333 | a rewritten value no longer matches, rewriting it again changes nothing, and it aborts the walk only if the original did |
| WalkSpec.RewrittenSettled | move_homedir.cpp:254-345 | the registry a complete walk leaves is a fixed point of the rewrite and holds no matching value |
| WalkSpec.RewrittenKeepsOk | move_homedir.cpp:254-345 | rewriting adds no hard error: the rewritten registry holds one only where the original did |
| WalkSpec.SecondRunNoOp | move_homedir.cpp:254-345 | walking again the registry that a successful walk left returns true, makes no write-back, counts nothing and changes nothing |
| WalkSpec.CStr | move_homedir.cpp:323-327 | the string read from the data buffer is its longest prefix without a NUL, and it stops at the first NUL |
| WalkSpec.VisitSpec | move_homedir.cpp:269-289 | for a child the loop could enumerate, the loop goes on exactly when its open error is not-found or access-denied, or it opens and holds no hard error (`Fails`); an opened child that succeeds ends up as `Rewritten` says, with one write per matching value beneath it |
| WalkSpec.WalkOkIff | move_homedir.cpp:254-345 | `iter` returns true exactly when no entry reached through keys that open is an enumeration error, an open error other than not-found or access-denied, a read error other than unsupported type, or a failed write of a matching value |
| WalkSpec.SubkeysOkIff | move_homedir.cpp:259-292 | the subkey loop from index i finishes exactly when none of the subkeys from i on fails |
| WalkSpec.ValuesOkIff | move_homedir.cpp:294-343 | the value loop from index j finishes exactly when none of the values from j on fails |
| WalkSpec.WalkSucceeds | move_homedir.cpp:254-345 | a walk that returns true leaves exactly the matching values of the reachable subtree rewritten, with every occurrence replaced, and adds exactly their number to `count`: one per value, however many occurrences it holds |
| WalkSpec.SubkeysSucceed | move_homedir.cpp:259-292 | a finished subkey loop has rewritten every child that opens and counted the matching values beneath them; children that do not open are kept as they were |
| WalkSpec.ValuesSucceed | move_homedir.cpp:294-343 | a finished value loop has rewritten exactly the matching values from j on and counted each one once; a non-string or non-matching value is neither written nor counted |
| WalkSpec.ValueStep | move_homedir.cpp:321-338 | processing one value rewrites it exactly when it matches, leaves the others alone, and adds one to the count exactly when it matches |
| WalkSpec.WalkOrder | move_homedir.cpp:259-294 | write-backs happen in depth-first order: a child's whole subtree before the key's own values, lower-numbered siblings first, values in index order |
| WalkSpec.SubkeysOrder | move_homedir.cpp:259-292 | the subkey loop keeps the writes in depth-first order, and all of them lie in the subtrees of the subkeys already handled |
| WalkSpec.ValuesOrder | move_homedir.cpp:294-343 | the value loop keeps the writes in order, and every write to the key's own values is to a value already handled |
| WalkSpec.WalkWritesOnce | move_homedir.cpp:294-338 | no value is written twice in one walk |
| WalkSpec.WalkWritesJustified | move_homedir.cpp:263-338 | every write-back rewrites a matching string value, reached through subkeys that were enumerated and opened, with `Replace(data, FROM_NAME, TO_NAME)`, and has that value's write outcome |
| WalkSpec.SubkeysJustified | move_homedir.cpp:263-292 | every write the subkey loop adds is to a matching value of a key reached through enumerated subkeys that open |
| WalkSpec.ValuesJustified | move_homedir.cpp:297-338 | every write the value loop makes is to one of the key's own matching values, at or after the loop's start |
| WalkSpec.WalkStopsAtFailedWrite | move_homedir.cpp:331-338 | a failed `RegSetValueEx` is the last write-back of the walk, and a walk that returns true had every write-back succeed |
| WalkSpec.SubkeysStop | move_homedir.cpp:285-289 | a failed write inside a child's walk ends the subkey loop: no write follows it |
| WalkSpec.ValuesStop | move_homedir.cpp:331-338 | a failed write ends the value loop: no write follows it |
| WalkSpec.FailureSkipsLaterSiblings | move_homedir.cpp:263-289 | once a subkey fails, later siblings are not visited and the key's values are not examined: the same outcome and writes as without the later siblings, and as with any other values in place of the key's own; later siblings and values are left as they were |
| WalkSpec.SubkeysPrefix | move_homedir.cpp:263-289 | the subkey loop that meets a failing subkey gives the same outcome and writes whatever subkeys follow |
| WalkSpec.FailureSkipsLaterValues | move_homedir.cpp:297-338 | once a value fails, later values are not examined: the same outcome and writes as without them |
| WalkSpec.ValuesPrefix | move_homedir.cpp:297-338 | the value loop that meets a failing value gives the same outcome and writes whatever values follow |
| WalkSpec.SubkeysIgnoreValues | move_homedir.cpp:259-292 | the subkey loop does not look at the key's values |
| WalkSpec.ValuesAfterWrites | move_homedir.cpp:294-343 | the value loop's decisions do not depend on the writes made before it, which only come first |
| RegistryTree.SetData | move_homedir.cpp:331-333 | a write-back replaces the data of exactly one value, which keeps its name and its enumeration, read and write outcomes, and leaves the key's other values, subkeys and open outcome alone |
| MoveHomedir.Registry.OpenKey | move_homedir.cpp:85-86 | `RegOpenKeyEx`, relative to the parent's open handle, gives the key's open outcome and holds a handle exactly when it succeeds |
| MoveHomedir.Registry.QueryInfoKey | move_homedir.cpp:124-139 | `RegQueryInfoKey` on an open key gives its number of subkeys and values |
| MoveHomedir.Registry.EnumKey | move_homedir.cpp:263-264 | `RegEnumKeyEx` gives the outcome and name of subkey i |
| MoveHomedir.Registry.EnumValue | move_homedir.cpp:297-298 | `RegEnumValue` gives the outcome and name of value i |
| MoveHomedir.Registry.GetValue | move_homedir.cpp:308-309 | `RegGetValue` with `RRF_RT_REG_SZ` gives the read outcome and the data buffer |
| MoveHomedir.Registry.SetValue | move_homedir.cpp:331-333 | `RegSetValueEx` is recorded whatever its outcome, and only a successful call changes that one value in the tree |
| MoveHomedir.Registry.CloseKey | move_homedir.cpp:112 | `RegCloseKey` releases one handle to the key |
| MoveHomedir.RegKey.constructor | move_homedir.cpp:81-99 | the key is opened under its parent; `isValidb` holds exactly when the open succeeded, the error code is the open outcome, and a valid key holds a handle and the subkey and value counts from `getInfo` |
| MoveHomedir.RegKey.Close | move_homedir.cpp:109-114 | the destructor releases the handle exactly when the open succeeded |
| MoveHomedir.RegKey.IsValid | move_homedir.cpp:176-179 | true exactly when the open succeeded |
| MoveHomedir.RegKey.GetErrorCode | move_homedir.cpp:196-199 | the outcome of the open |
| MoveHomedir.Iter | move_homedir.cpp:254-345 | returns `Walk(key).ok`, adds the number of attempted write-backs to `count` (so `count` never decreases), leaves the registry as `Walk` says with the subtree rewritten in place, logs exactly `Walk`'s write-backs in order, and leaves no handle open |
| MoveHomedir.IterSubkeys | move_homedir.cpp:259-292 | the subkey loop does what `WalkSubkeys` says to the result, `count`, the registry and the log, and closes every child it opens |
| MoveHomedir.WalkChild | move_homedir.cpp:269-291 | one child is opened one level deeper, walked when valid, skipped on not-found or access-denied, aborts on any other open error, and is closed again, all as `Visit` says |
| MoveHomedir.IterValues | move_homedir.cpp:294-343 | the value loop does what `WalkValues` says to the result, `count`, the registry and the log |
| Scenarios.MovedPath | move_homedir.cpp:328 | `C:\Users\from\Documents` becomes `C:\Users\to\Documents` |
| Scenarios.ScenarioMoved | move_homedir.cpp:254-345 | a subkey holding `Path = C:\Users\from\Documents`: the walk succeeds, the value becomes `C:\Users\to\Documents` and the counter goes up by one |
| Scenarios.ScenarioUnrelated | move_homedir.cpp:321-323 | the same with `C:\Users\other\Documents`: the walk succeeds, nothing changes and nothing is counted |
| Scenarios.ScenarioDeniedSkipped | move_homedir.cpp:272-289 | an access-denied subkey is skipped and the walk goes on to rewrite the next sibling's value |
| Scenarios.TwoPaths | move_homedir.cpp:225-232 | both occurrences in `C:\Users\from;D:\Users\from` are replaced in one pass |
| Scenarios.ScenarioTwice | move_homedir.cpp:323-333 | a value naming the old profile twice is written once with both occurrences replaced, and counted once |
| Scenarios.ScenarioOpenError | move_homedir.cpp:272-281 | a subkey whose open fails with another error makes the walk return false |

## Left out

- The Win32 registry calls are foreign code. `Registry` stands for them, over a tree
  whose entries carry the outcome each call gives. Keys are addressed by subkey index
  path and values by index, where the program uses names; names are assumed unique
  within a key.
- The registry is assumed not to change under the walk except through its own
  writes. Concurrent changes by other processes are not modelled.
- `RegQueryInfoKey`'s own result is ignored by the source; the model assumes it
  succeeds on an open key. The other metadata it reads (longest names, class,
  security descriptor, last write time) plays no part in the walk and is not kept.
- Buffer sizes, `new`/`delete` and the `longestValueData * 2 + 2` arithmetic are not
  modelled; a buffer that is too small is the read outcome `MoreData`, which aborts
  like any other read error.
- Console output, the `DEBUG` switch and `main`'s "press return" loop are I/O and are
  left out.
- `main` is not modelled: it walks the five root hives with one shared counter,
  ignores each walk's result, and returns -1 when a root key fails to open.
- `getName`, `getKey`, `getSubkeyCount`, `getValueCount`, `getLongestValueData` and
  `getDepth` are plain field reads; the model reads the fields directly.
- MoveHomedir.Iter: `count` is an unbounded integer, so the model does not capture
  overflow of the source's `int` counter.
- MoveHomedir.Iter: depth appears only as the precondition that a key's depth is the
  length of its path, which is how a child gets its parent's depth plus one. There is
  no depth limit in the source and none in the model.
- MoveHomedir.IterValues: the written data is the replaced string without the
  trailing NUL that `RegSetValueEx` stores with it.
- A value's registry type is not modelled. `data` stands for what `RegGetValue` with
  `RRF_RT_REG_SZ` returns, and a write-back always stores `REG_SZ`
  (move_homedir.cpp:331-333), whatever string type the value had before.
- Registry links are not modelled. The tree cannot share a key, so a key that the
  registry makes reachable twice appears as two copies; the model would rewrite and
  count both, where the program finds the second one already rewritten.
- Wide strings are sequences of Dafny `char`, which cannot hold an unpaired UTF-16
  surrogate the way a `std::wstring` element can. FROM_NAME and TO_NAME are ASCII, so
  matching and replacing are unaffected.
- StringReplace.Replace: requires a non-empty needle. The only caller passes
  `FROM_NAME`; with an empty needle the source loop never ends, which
  `EmptyNeedleNeverStops` shows.
