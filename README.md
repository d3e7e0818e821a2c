# Registry::Key, modelled in Dafny

This project models the `Registry::Key` wrapper of the 3D Vision Eye Swapper
tool (`src/Registry.h`, `src/Registry.cpp`). The wrapper does the following:

- It opens, creates, tests and deletes registry keys through a predefined
  root selector and a sub-key path.
- It reads and writes values of any type, such as strings, DWORDs and QWORDs.
- It enumerates a key's values and sub-keys through a callback.
- It runs a worker that waits for change notifications on the key.

The Win32 registry is replaced by an abstract store (module `Store`). A store
maps a location (a root and a path of names) to a node. A node holds:

- an ordered table of values, each a name with a type and its bytes;
- an ordered list of child names.

Besides the nodes, the store keeps a table of open handles and a log of the
native calls made against it. Each native function the wrapper uses
(`RegOpenKeyEx`, `RegCreateKeyEx`, `RegCloseKey`, `RegDeleteKeyEx`, and so on)
is a total function on the store. Each returns a status and the new store, and
appends one entry to the log. The log lets the contracts say which native calls
an operation issued, with which arguments and in which order.

Modules:

- `Flags` (`flags.dfy`): the `AccessRights` and `NotifyEvents` flag types and
  their bitwise operators.
- `RegTypes` (`types.dfy`): the following value types.
  - Machine integers, C strings and pointers, and status codes.
  - The `DataType` codes (every 32-bit code, with the named ones) and the
    `PredefinedKey` enumeration.
  - The `m_predefinedKeys` root table.
  - The little-endian bytes of DWORDs and QWORDs.
- `Store` (`store.dfy`): the abstract store and its native calls. It includes
  the store invariant `Hive.Valid` and lemmas showing that every call which
  changes the store keeps it valid.
- `Registry` (`registry.dfy`): the module-level helpers, and `class Key`, whose
  fields are the C++ members. The store is passed in and returned, so a
  `Key` method changes only the fields the C++ method changes.
  - The module-level members are the enumeration steps, the `Value` record,
    the sub-key view and the notification filter.
  - Out-pointers are modelled by value. The model takes `Null` or `Ptr(x)`,
    with `x` the current pointee, and returns the new pointer.
- `Usage` (`usage.dfy`): properties across several calls, such as
  set-then-get round trips and create-then-exists.

## Model

| member | source | states |
|---|---|---|
| Flags.AccessRights.Or | src/Registry.h:49-52 | `operator \|` on access rights; no contract of its own, its meaning is stated by `Flags.AccessBitwise` and the laws below |
| Flags.AccessRights.And | src/Registry.h:54-57 | `operator &` on access rights; stated by `Flags.AccessBitwise` |
| Flags.AccessRights.Xor | src/Registry.h:59-62 | `operator ^` on access rights; stated by `Flags.AccessBitwise` |
| Flags.AccessRights.Not | src/Registry.h:64-67 | `operator ~` on access rights; stated by `Flags.AccessBitwise` |
| Flags.AccessRights.Contains | src/Registry.h:54-57 | A mask contains another when `&` with it gives it back; used by `Flags.ReadAndWriteComposition` |
| Flags.NotifyEvents.Or | src/Registry.h:80-83 | `operator \|` on notify events; stated by `Flags.NotifyBitwise` |
| Flags.NotifyEvents.And | src/Registry.h:85-88 | `operator &` on notify events; stated by `Flags.NotifyBitwise` |
| Flags.NotifyEvents.Xor | src/Registry.h:90-93 | `operator ^` on notify events; stated by `Flags.NotifyBitwise` |
| Flags.NotifyEvents.Not | src/Registry.h:95-98 | `operator ~` on notify events; stated by `Flags.NotifyBitwise` |
| Flags.NotifyEvents.Overlaps | src/Registry.cpp:463-467 | The filter lets a change through when the two masks share an event; used by `Registry.Wakes` |
| Flags.AccessBitwise | src/Registry.h:49-67 | Bit by bit, `\|`, `&`, `^` and `~` on `AccessRights` are or, and, exclusive-or and negation of the underlying bits |
| Flags.NotifyBitwise | src/Registry.h:80-98 | The same for `NotifyEvents` |
| Flags.AccessOrCommutes | src/Registry.h:49-52 | `a \| b == b \| a` on access rights |
| Flags.AccessOrAssociates | src/Registry.h:49-52 | `(a \| b) \| c == a \| (b \| c)` on access rights |
| Flags.AccessAndIdempotent | src/Registry.h:54-57 | `a & a == a` on access rights |
| Flags.AccessXorSelfIsEmpty | src/Registry.h:59-62 | `a ^ a == None` on access rights |
| Flags.AccessNotInvolutive | src/Registry.h:64-67 | `~~a == a` on access rights |
| Flags.NotifyOrCommutes | src/Registry.h:80-83 | `a \| b == b \| a` on notify events |
| Flags.NotifyOrAssociates | src/Registry.h:80-83 | `\|` on notify events is associative |
| Flags.NotifyAndIdempotent | src/Registry.h:85-88 | `a & a == a` on notify events |
| Flags.NotifyXorSelfIsEmpty | src/Registry.h:90-93 | `a ^ a` is the empty event set |
| Flags.NotifyNotInvolutive | src/Registry.h:95-98 | `~~a == a` on notify events |
| Flags.NotifyAllIsUnionOfChanges | src/Registry.h:71-78 | `All` (15) is the union of the four `Change_*` flags |
| Flags.ReadAndWriteComposition | src/Registry.h:33-47 | `Read` contains `Query_Value`, `Enumerate_SubKeys` and `Notify`; `Write` contains `Set_Value` and `Create_SubKey`; each is the standard-rights bit plus those flags; `All_Access` contains both |
| RegTypes.DataTypeCodeRoundTrip | src/Registry.h:102-116 | Casting any 32-bit code to `DataType` and back (`(DataType)type_`, `(DWORD)dataType`) gives the same code, named or not, and the text types are exactly codes 1, 2 and 7 |
| RegTypes.RootOf | src/Registry.cpp:24-36 | `m_predefinedKeys[(int)mainKey]`; no contract of its own, the table is stated by `RegTypes.RootTableAgreesBelowSix`, `RegTypes.RootTableFromSix` and `RegTypes.RootOfIsBijective` |
| RegTypes.RootTableAgreesBelowSix | src/Registry.cpp:24-36 | The table has ten entries; a selector opens the root it is named after exactly when its index is below 6 |
| RegTypes.RootTableFromSix | src/Registry.cpp:24-36 | `Performance_Text` opens `HKEY_DYN_DATA`, `Performance_NLSText` opens `HKEY_CURRENT_USER_LOCAL_SETTINGS`, `Dyn_Data` opens `HKEY_PERFORMANCE_TEXT`, and `Current_User_Local_Settings` opens `HKEY_PERFORMANCE_NLSTEXT` |
| RegTypes.RootOfIsBijective | src/Registry.cpp:24-36 | No two selectors open the same root, and every root has a selector |
| RegTypes.LittleEndianRoundTrip | src/Registry.h:229-237 | Reading the `n` little-endian bytes of a number below 256^n gives the number back |
| RegTypes.FromLittleEndianRoundTrip | src/Registry.h:229-237 | Writing the number that a byte sequence denotes, as that many bytes, gives the sequence back |
| RegTypes.DWordRoundTrip | src/Registry.h:229-232 | The bytes written for a DWORD are 4 and decode to the DWORD; any 4 bytes are the bytes of the DWORD they decode to |
| RegTypes.QWordRoundTrip | src/Registry.h:234-237 | The same for a QWORD and 8 bytes |
| Store.Payload | src/Registry.cpp:183-197 | The bytes a read returns are the stored data. Text without a terminator gains one byte, a NUL, so text is always terminated. Other data is returned unchanged |
| Store.Hive.OpenKeyEx | src/Registry.cpp:116-120 | Succeeds exactly when the parent handle resolves and the key below it exists. On success it returns a fresh handle to that key, the next handle number, and every other handle is kept. On failure it returns the null handle. It never changes the keys |
| Store.Hive.CreateKeyEx | src/Registry.cpp:124-134 | Succeeds exactly when the path is given and the parent resolves to an existing key. The key then exists, the handle refers to it, and the disposition is "created" exactly when the key was absent before. The handle is the next handle number and every other handle is kept. Every key that existed still exists with the same values in the same order, and its children only gain names. A key that was absent is created with no values and no children |
| Store.Hive.CloseKey | src/Registry.cpp:89 | Succeeds exactly when the handle resolves. A closed handle is removed from the handle table, and no key changes |
| Store.Hive.DeleteKeyEx | src/Registry.cpp:68-71 | Succeeds exactly when the key exists, is not a root and has no sub-keys. It then removes precisely that key |
| Store.Hive.SetValueEx | src/Registry.h:218-221 | Succeeds exactly when the key behind the handle exists. The value then holds the given type and bytes. A new name is enumerated after the existing ones, and an existing one keeps its place. The key's children and every other key are unchanged |
| Store.Hive.DeleteValue | src/Registry.cpp:165-169 | Succeeds exactly when the value exists, and the value is gone afterwards |
| Store.Hive.GetValue | src/Registry.cpp:183-197 | On an existing value it succeeds exactly when the type filter accepts the type, the fixed size fits, and the buffer (if any) holds the payload. It then reports the type and the payload size, and returns the payload when a buffer is given. On failure the status is the handle's error, FILE_NOT_FOUND for a missing value, UNSUPPORTED_TYPE for a refused type, DATATYPE_MISMATCH for a wrong fixed size, or MORE_DATA for a short buffer |
| Store.Hive.QueryInfoKey | src/Registry.cpp:295-306 | Reports the number of sub-keys and values, and bounds on the longest sub-key name, value name and value data |
| Store.Hive.EnumValue | src/Registry.cpp:319-326 | Below the value count it yields the name, type and size at that index when the name fits the buffer. Past the count it returns NO_MORE_ITEMS |
| Store.Hive.EnumKey | src/Registry.cpp:382-389 | Below the child count it yields the child at that index when the name fits the buffer. Past the count it returns NO_MORE_ITEMS |
| Store.Hive.FlushKey | src/Registry.h:205-208 | Succeeds exactly when the handle resolves, and changes nothing but the log |
| Store.Hive.NotifyChangeKeyValue | src/Registry.cpp:463-467 | Arming a wait succeeds exactly when the handle resolves to an existing key; otherwise it fails with INVALID_HANDLE or KEY_DELETED. It changes nothing but the log |
| Store.CreateKeyExValid | src/Registry.cpp:124-134 | Creating a key keeps the store valid |
| Store.DeleteKeyExValid | src/Registry.cpp:68-71 | Deleting a key keeps the store valid |
| Store.SetValueExValid | src/Registry.h:218-221 | Writing a value keeps the store valid |
| Store.DeleteValueValid | src/Registry.cpp:165-169 | Deleting a value keeps the store valid |
| Registry.DeleteRightsAllowed | src/Registry.cpp:64-65 | The rights test of `Delete` and `DeleteSubkey`; no contract of its own, stated by `Registry.DeleteRightsAllowedBits` |
| Registry.DeleteRightsAllowedBits | src/Registry.cpp:64-65 | The rights `Delete` and `DeleteSubkey` accept are exactly the masks 0 and 0x300 |
| Registry.Normalise | src/Registry.cpp:346 | The loop's result is SUCCESS exactly when the last status was SUCCESS or NO_MORE_ITEMS; any other status is returned unchanged |
| Registry.Zeros | src/Registry.cpp:314-315 | The scratch buffer has the requested size and only zero bytes |
| Registry.Key.constructor | src/Registry.h:281-295 | The key stores its arguments verbatim, has no worker, and its stop flag is clear |
| Registry.Key.Default | src/Registry.h:269-279 | The default key has selector `Current_User`, a null path, no rights, a null handle, "not created", no worker and a clear stop flag |
| Registry.Key.Phase | src/Registry.h:309-310 | The worker's state read off `m_worker` and `m_workerShouldClose`: idle with no worker, watching while it runs with the flag clear, stopping otherwise; no contract of its own, the methods below state the phase they leave |
| Registry.Key.OpenKey | src/Registry.cpp:97-148 | A null path writes INVALID_PARAMETER (when the status pointer is given), returns null and issues no call. Otherwise it issues one open or create call with the key's root, path and rights, and writes that call's status. A key is returned exactly on success. The returned key has the given selector, path and rights, and its handle refers to the key at that path. It is "created" only on the create path when the key was absent before. The new store is exactly the one the open or create call leaves, and the key's handle is the next handle number. With a valid store, creating always succeeds |
| Registry.Key.Open | src/Registry.cpp:39-45 | A null path writes INVALID_PARAMETER (when the status pointer is given), returns null and issues no call. Otherwise it issues one open call and writes that call's status. A key is returned exactly when the key exists; it is live, has the given selector, path and rights, is never "created", and has no worker. The new store is exactly the one the open call leaves: the keys are unchanged, and every other handle is kept |
| Registry.Key.Create | src/Registry.cpp:48-54 | A null path writes INVALID_PARAMETER, returns null and issues no call. Otherwise it issues one create call, writes that call's status, and returns a key exactly on success, which in a valid store is always. The key is live, has no worker, is "created" exactly when it was absent before, and exists afterwards. The new store is exactly the one the create call leaves: existing keys keep their values and handles, and a new key is empty |
| Registry.Key.Exists | src/Registry.cpp:75-94 | True exactly when the path is given and the key exists. It opens with `Query_Value` and closes the handle it opened. A null path issues no call. No key changes and no handle remains open |
| Registry.Key.Delete | src/Registry.cpp:57-72 | A null path, or rights other than none or both view selectors, gives INVALID_PARAMETER with no call issued and the store unchanged. Otherwise it issues exactly one delete with those rights. It succeeds exactly when the key exists, is not a root and has no sub-keys, and then removes precisely that key |
| Registry.Key.DeleteSubkey | src/Registry.cpp:151-162 | Rejects the same rights with INVALID_PARAMETER and no call issued. Otherwise the delete runs below the key's handle with the key's own rights, not the argument. Success and effect are as for `Delete` |
| Registry.Key.DeleteValue | src/Registry.cpp:165-169 | Succeeds exactly when the value exists; afterwards it does not. One call is issued, and no key or handle changes |
| Registry.Key.Flush | src/Registry.h:205-208 | Succeeds exactly when the handle resolves, and only logs the flush |
| Registry.Key.SetValue | src/Registry.h:218-221 | Succeeds exactly when the key exists. The value then holds the type and the first `dataSize` bytes of the data |
| Registry.Key.SetValueString | src/Registry.h:223-227 | The value is a `REG_SZ` (code 1) holding the string's characters without the terminator; a null string stores no bytes |
| Registry.Key.SetValueDWORD | src/Registry.h:229-232 | The value is a `REG_DWORD` (code 4) of exactly 4 bytes that decode to the written DWORD |
| Registry.Key.SetValueQWORD | src/Registry.h:234-237 | The value is a `REG_QWORD` (code 11) of exactly 8 bytes that decode to the written QWORD |
| Registry.Key.GetValue | src/Registry.cpp:172-209 | All three outputs null gives INVALID_PARAMETER with no call issued. It succeeds exactly when the value exists. On failure no output is written, and the status is the probe's. On success the type, the size and a fresh buffer holding the payload are written to the outputs that were given. The probe asks for the size only, and the second read, issued only when data is wanted, uses the probed size plus 2 |
| Registry.Key.GetValueString | src/Registry.cpp:212-239 | A null output gives INVALID_PARAMETER with no call issued. It succeeds exactly when the value exists and is text. On success the output points at the terminated text, read with the probed size plus 2. On failure the output is left as it was, and the status is the probe's |
| Registry.Key.GetValueDWORD | src/Registry.cpp:242-258 | A null output gives INVALID_PARAMETER with no call issued. It succeeds exactly when the value is a 4-byte DWORD or binary value, and then writes the stored DWORD. On failure the output is untouched and the status is that read's. Exactly one read of size 4 is issued |
| Registry.Key.GetValueQWORD | src/Registry.cpp:261-277 | The same with QWORD, 8 bytes |
| Registry.Key.EnumValues | src/Registry.cpp:280-347 | Issues one info query, then `RegEnumValue` for indices 0, 1, 2, … in order. The callback is handed the value at each successful index, with the zeroed scratch buffer as data. It stops at the first failing step or the first false answer. Every value except the last was accepted. A refusal gives SUCCESS; otherwise the failing step's status is normalised |
| Registry.ValuesSeenInValidStore | src/Registry.cpp:312-346 | In a valid store with an open key, `EnumValues` succeeds. The callback has seen exactly the key's first values in order, with their names, types and sizes, and either all of them or up to the one it refused |
| Registry.ValueStepInValidStore | src/Registry.cpp:319-326 | With the buffer sized from the info query, in a valid store every index below the value count yields that value, and every index past it gives NO_MORE_ITEMS |
| Registry.Key.EnumSubKeys | src/Registry.cpp:350-409 | The same loop over `RegEnumKeyEx`. Each view shares the parent's handle, selector and rights, has the child's name as its path, and is "not created" |
| Registry.SubKeysSeenInValidStore | src/Registry.cpp:377-408 | In a valid store with an open key, `EnumSubKeys` succeeds. The callback has seen exactly the key's first children in order, either all of them or up to the one it refused |
| Registry.KeyStepInValidStore | src/Registry.cpp:382-389 | In a valid store every index below the child count yields that child, and every index past it gives NO_MORE_ITEMS |
| Registry.Wakes | src/Registry.cpp:463-467 | At most one wake per change |
| Registry.WakesOnEveryChange | src/Registry.cpp:463-467 | With all events over the whole subtree (the defaults of `AddNotify`), every change of some kind wakes the worker |
| Registry.NoEventsNoWakes | src/Registry.cpp:463-467 | With an empty event filter the worker is never woken |
| Registry.WaitsEnded | src/Registry.cpp:461-471 | A modelling assumption about the environment, not an operation of the wrapper. With a key that can be watched, the waits that end are the changes that pass the filter; when the arm fails, every wait the worker is watched for ends without any change |
| Registry.FirstRefusal | src/Registry.cpp:469-471 | The number of callback answers before the first false one: every earlier answer is true, and the answer at it is false unless it is the bound |
| Registry.Key.AddNotify | src/Registry.cpp:412-450 | Without a worker, it starts one watching the given events, and issues no call. With a worker, it raises the stop flag, closes the handle, joins, and reopens from the selector, path and rights. A failed reopen returns its status and leaves no worker; otherwise a new worker watches. The old handle is released, and no key changes |
| Registry.Key.Reopen | src/Registry.cpp:473-483 | Closes a non-null handle, then opens the key again from the selector, path and rights. It succeeds exactly when the key exists, and the new handle refers to it. On failure the handle is null |
| Registry.Key.NotifyWorker | src/Registry.cpp:453-491 | Calls the callback once per ended wait, whether the wait ended at a change or because the arm failed (its status is not looked at), and stops at its first false answer. Then it closes the handle, reopens the key, raises the stop flag and returns. The number of calls is the number of answers before the first false one, plus that one. The worker stops exactly when some wake is refused; otherwise it keeps watching with the handle unchanged. The new store is the old one with one arm logged per wait it made, and on the stop path that store after the close and the reopen; every other handle is kept |
| Registry.Key.Close | src/Registry.h:253-266 | Raises the stop flag and closes the handle if it is not null, leaving no handle open. It stops a worker if there is one, frees the path and marks the key deleted. No key changes |
| Usage.SetThenGetDWord | src/Registry.h:229-232 | Through an open key, a DWORD written then read back is the DWORD written; without one both calls fail |
| Usage.SetThenGetQWord | src/Registry.h:234-237 | The same for a QWORD |
| Usage.SetThenGetString | src/Registry.h:223-227 | A string written then read back is the string plus its terminator (a null string reads back as the terminator alone) |
| Usage.SetThenGetValue | src/Registry.cpp:172-209 | Bytes written with a type read back with that type and the store's payload; data that is not text reads back exactly as written, with its size |
| Usage.DeleteThenGetValue | src/Registry.cpp:165-209 | Deleting succeeds exactly when the value existed. Reading it afterwards gives FILE_NOT_FOUND through a live key, and the key's error otherwise |
| Usage.CreateThenExists | src/Registry.cpp:48-94 | In a valid store a created key exists afterwards, and the store stays valid |
| Usage.CreateTwice | src/Registry.cpp:124-134 | Creating the same key twice gives two distinct key objects; the second reports it was not created, and the first reports created exactly when the key was absent |
| Usage.OpenWatchClose | src/Registry.cpp:39-54 | A key that was opened can be watched and then closed: the watch succeeds, the object ends dead with its worker stopped, and no key of the store changes |
| Usage.CreateSetEnumerateDelete | src/Registry.cpp:48-94 | In a valid store, a key created where none was holds, after one DWORD is set, exactly that value when enumerated (its name, `REG_DWORD` and size 4). Being childless it can then be deleted, and afterwards it does not exist |
| Usage.DeleteLeaf | src/Registry.cpp:57-94 | A key below a root with no sub-keys is deleted by path with the default rights, and no longer exists afterwards |
| Usage.WatchUnwatchableKey | src/Registry.cpp:461-471 | A worker whose key cannot be watched, with a callback that never refuses, calls it once per wait it is followed for and keeps running; no key or handle changes |
| Usage.DeletedKeyIsGone | src/Registry.cpp:57-94 | After a successful `Delete` the key no longer exists |
| Usage.ExistsIsStable | src/Registry.cpp:75-94 | Asking `Exists` twice gives the same answer |

## Left out

- TCHAR is taken to be one byte, as in an ANSI build. `SetValueString`
  passes `_tcslen(value)` as the byte count. In a UNICODE build that count
  covers only half the characters, and this byte-counting is not modelled.
- Character encoding, case-insensitive key and value names, environment
  expansion of `REG_EXPAND_SZ`, and the inner structure of `REG_MULTI_SZ` are
  not modelled. Names are compared as byte strings.
- Access checks, WoW64 view redirection, security descriptors, volatile keys
  and the persistence that `RegFlushKey` provides belong to Win32 and are not
  modelled. The rights are passed to the store and recorded in its log, but
  they grant or deny nothing.
- Registry.Key.GetValue: the branch where the second read fails is kept as
  the source has it. No contract mentions it, because in a store without
  concurrent writers the second read, with its larger buffer, always
  succeeds.
- Registry.Key.GetValueString: the same for the second read: it cannot fail
  here.
- Registry.Key.GetValue: the two extra bytes the buffer gets beyond the
  probed size are not part of the returned data, so their uninitialised
  contents are not modelled.
- Memory management (`new`/`delete`, `memset`, `_tcscpy_s`) is modelled by
  value. The path copy `OpenKey` makes is the same string. The buffer
  reused across enumeration steps, and the aliasing of `Value::GetName` with
  that buffer, are not modelled: each step hands over its own name.
- Registry.Key.EnumValues and Registry.Key.EnumSubKeys: neither checks the
  status of `RegQueryInfoKey`, and on failure the counts and lengths it
  leaves are uninitialised locals, so the buffer sizes the source then
  allocates are indeterminate. The model chooses zeros for them. Then the
  enumeration's first step fails with the same status, which the
  contracts cover. That outcome is the model's choice; the source does
  not guarantee it.
- Registry.Key.EnumValues and Registry.Key.EnumSubKeys: what the callback
  sees in a valid store is stated by the separate lemmas
  `Registry.ValuesSeenInValidStore` and `Registry.SubKeysSeenInValidStore`.
  The method contracts state it as a function of the native calls. The
  `refused` flag is a ghost output.
- The callbacks are pure functions. Side effects of a callback, including
  writing to the store or closing the key, are not modelled. Neither is
  the `userData` pointer handed to the notification callback.
- The key object handed to each `EnumSubKeys` callback is a record
  (`Registry.SubKeyView`) with the fields the source sets, not a `Key`
  object.
- The getters `GetSubKeyPath`, `GetMainKey`, `GetAccessRights`, `GetHKEY`,
  `KeyWasCreated` and the `Value` getters return fields unchanged, so they
  are the fields of `Registry.Key` and `Registry.Value`.
- The overload `EnumSubKeys()` (src/Registry.h:203) is declared without a
  definition and is not part of this model.
- Threads: the worker is a sequential method, driven by the list of changes
  that end its waits and by the callback's answers. The `std::thread`,
  `join`, the `volatile` stop flag and the race between `AddNotify`/`Close`
  and a running worker are not modelled. A join is the worker noticing the
  raised flag, and a worker whose changes run out is left waiting.
- Registry.Key.NotifyWorker: when the arm fails, the source loops without
  a pause, calling the callback until it refuses, possibly forever. The
  model follows that worker for `spins` such returns only.
- Registry.Key.Close: the C++ `delete this` is modelled by a `deleted`
  flag, which the other notification methods require to be clear.
- The operator `~` yields the signed `int` complement. It is modelled on
  the 32-bit pattern, which is the same bits.
- The tray application that uses the wrapper is not part of this model.
  That includes `UpdateEyes`, which writes two DWORDs through
  `SetValueDWORD`.
