/** What a caller of `Registry::Key` can rely on across calls: values read
    back as written, created keys exist, deleted keys and values are gone. */
module Usage {
  import opened Flags
  import opened RegTypes
  import opened Store
  import opened Registry

  /** A DWORD written through an open key reads back unchanged. */
  method SetThenGetDWord(key: Key, h: Hive, name: Ptr<CString>, v: uint32)
    returns (status: Status, read: Ptr<uint32>, h': Hive)
    ensures h.KeyStatus(key.hKey) == Status.Success ==> status == Status.Success && read == Ptr(v)
    ensures h.KeyStatus(key.hKey) != Status.Success ==> status != Status.Success && read == Ptr(0)
  {
    var w := key.SetValueDWORD(h, name, v);
    status, read, h' := key.GetValueDWORD(w.hive, name, Ptr(0));
  }

  /** A QWORD written through an open key reads back unchanged. */
  method SetThenGetQWord(key: Key, h: Hive, name: Ptr<CString>, v: uint64)
    returns (status: Status, read: Ptr<uint64>, h': Hive)
    ensures h.KeyStatus(key.hKey) == Status.Success ==> status == Status.Success && read == Ptr(v)
    ensures h.KeyStatus(key.hKey) != Status.Success ==> status != Status.Success && read == Ptr(0)
  {
    var w := key.SetValueQWORD(h, name, v);
    status, read, h' := key.GetValueQWORD(w.hive, name, Ptr(0));
  }

  /** A string written through an open key reads back with its terminator;
      a null string reads back as the empty string. */
  method SetThenGetString(key: Key, h: Hive, name: Ptr<CString>, value: Ptr<CString>)
    returns (status: Status, read: Ptr<Ptr<seq<byte>>>, h': Hive)
    ensures h.KeyStatus(key.hKey) == Status.Success ==>
              status == Status.Success && read == Ptr(Ptr((if value.Null? then [] else value.target) + [0]))
    ensures h.KeyStatus(key.hKey) != Status.Success ==> status != Status.Success && read == Ptr(Null)
  {
    var w := key.SetValueString(h, name, value);
    status, read, h' := key.GetValueString(w.hive, name, Ptr(Null));
  }

  /** Bytes written with a type read back with that type; data that is not
      text reads back as written, text gains a terminator when it has none. */
  method SetThenGetValue(key: Key, h: Hive, name: Ptr<CString>, data: seq<byte>, size: uint32, kind: DataType)
    returns (status: Status, read: Ptr<Ptr<seq<byte>>>, readSize: Ptr<nat>, readKind: Ptr<DataType>, h': Hive)
    requires size as int <= |data|
    ensures h.KeyStatus(key.hKey) == Status.Success ==>
              && status == Status.Success && readKind == Ptr(kind)
              && read == Ptr(Ptr(Payload(Entry(kind, data[..size]))))
              && readSize == Ptr(|Payload(Entry(kind, data[..size]))|)
    ensures h.KeyStatus(key.hKey) == Status.Success && !kind.IsText() ==>
              read == Ptr(Ptr(data[..size])) && readSize == Ptr(size as nat)
  {
    var w := key.SetValue(h, name, data, size, kind);
    status, read, readSize, readKind, h' := key.GetValue(w.hive, name, Ptr(Null), Ptr(0), Ptr(DataType.None));
  }

  /** A value that was deleted cannot be read: the read reports it
      missing, or reports what is wrong with the key. */
  method DeleteThenGetValue(key: Key, h: Hive, name: Ptr<CString>)
    returns (deleted: Status, status: Status, h': Hive)
    ensures deleted == Status.Success <==> h.HasValue(key.hKey, name)
    ensures h.KeyStatus(key.hKey) == Status.Success ==> status == Status.FileNotFound
    ensures h.KeyStatus(key.hKey) != Status.Success ==> status == h.KeyStatus(key.hKey)
  {
    var d := key.DeleteValue(h, name);
    deleted := d.status;
    var data, size, kind;
    status, data, size, kind, h' := key.GetValue(d.hive, name, Ptr(Null), Ptr(0), Ptr(DataType.None));
  }

  /** In a valid store, a key that was created exists afterwards. */
  method CreateThenExists(h: Hive, mainKey: PredefinedKey, path: CString) returns (key: Key?, found: bool, h': Hive)
    requires h.Valid()
    ensures key != null && found && h'.Valid()
  {
    var code, h1;
    key, code, h1 := Key.Create(h, mainKey, Ptr(path));
    var e := Key.Exists(h1, mainKey, Ptr(path));
    found, h' := e.0, e.1;
  }

  /** Creating a key twice creates it once: the second key object reports
      that it opened an existing key. */
  method CreateTwice(h: Hive, mainKey: PredefinedKey, path: CString) returns (first: Key?, second: Key?, h': Hive)
    requires h.Valid()
    ensures first != null && second != null && first != second
    ensures !second.hKeyCreated
    ensures first.hKeyCreated <==> h.Below(Root(RootOf(mainKey)), Ptr(path)) !in h.nodes
  {
    var code, h1;
    first, code, h1 := Key.Create(h, mainKey, Ptr(path));
    second, code, h' := Key.Create(h1, mainKey, Ptr(path));
  }

  /** A key that was opened can be watched and then closed: afterwards the
      object is dead, its worker is stopped, and no key of the store changed. */
  method OpenWatchClose(h: Hive, mainKey: PredefinedKey, path: CString)
    returns (key: Key?, watched: Status, h': Hive)
    requires h.Valid()
    ensures key != null <==> h.Below(Root(RootOf(mainKey)), Ptr(path)) in h.nodes
    ensures key != null ==>
              && watched == Status.Success && key.deleted && key.workerShouldClose
              && key.worker == Worker(NotifyEvents.All, true, false)
    ensures h'.nodes == h.nodes && h'.Valid()
  {
    var code;
    key, code, h' := Key.Open(h, mainKey, Ptr(path));
    watched := Status.Success;
    if key != null {
      watched, h' := key.AddNotify(h');
      h' := key.Close(h');
    }
  }

  /** A new key, created in a valid store, holds after one DWORD is set
      exactly that one value; being childless it can then be deleted, and
      afterwards it does not exist. */
  method CreateSetEnumerateDelete(h: Hive, mainKey: PredefinedKey, path: CString, name: Ptr<CString>, v: uint32)
    returns (key: Key?, seen: seq<Value>, deleted: Status, found: bool, h': Hive)
    requires h.Valid() && h.Below(Root(RootOf(mainKey)), Ptr(path)) !in h.nodes
    ensures key != null && key.hKeyCreated
    ensures |seen| == 1 && seen[0].name == ValueName(name) && seen[0].kind == DataType.DWord && seen[0].dataSize == 4
    ensures deleted == Status.Success && !found
  {
    var code, h1;
    key, code, h1 := Key.Create(h, mainKey, Ptr(path));
    var l := h.Below(Root(RootOf(mainKey)), Ptr(path));
    assert h1.Valid() && h1.KeyStatus(key.hKey) == Status.Success && h1.Where(key.hKey) == l;
    assert h1.nodes[l] == EmptyNode;
    var written := key.SetValueDWORD(h1, name, v);
    var h2 := written.hive;
    assert h2.Valid() && h2.KeyStatus(key.hKey) == Status.Success && h2.Where(key.hKey) == l;
    assert h2.nodes[l] == Node([ValueName(name)], map[ValueName(name) := Entry(DataType.DWord, DWordBytes(v))], []);
    var status, h3; ghost var refused;
    status, seen, h3, refused := key.EnumValues(h2, _ => true);
    ValuesSeenInValidStore(h2, key, key.hKey, _ => true, status, seen, refused);
    assert h3.nodes == h2.nodes && h3.Below(Root(RootOf(mainKey)), Ptr(path)) == l && l.path != [];
    DeleteLeaf(h3, mainKey, path);
    var d := Key.Delete(h3, mainKey, Ptr(path));
    deleted := d.status;
    var e := Key.Exists(d.hive, mainKey, Ptr(path));
    found, h' := e.0, e.1;
  }

  /** A key without children below a root can be deleted by path with the
      default rights, and then no longer exists. */
  lemma DeleteLeaf(h: Hive, mainKey: PredefinedKey, path: CString)
    requires var l := h.Below(Root(RootOf(mainKey)), Ptr(path)); l in h.nodes && l.path != [] && h.nodes[l].children == []
    ensures var d := Key.Delete(h, mainKey, Ptr(path));
            d.status == Status.Success && !Key.Exists(d.hive, mainKey, Ptr(path)).0
  {
    DeletedKeyIsGone(h, mainKey, Ptr(path), AccessRights.None);
  }

  /** A worker whose key cannot be watched is woken without any change:
      with a callback that never asks it to stop it calls the callback once
      per wait it is followed for, and it keeps running. */
  method WatchUnwatchableKey(key: Key, h: Hive, spins: nat) returns (invocations: nat, h': Hive)
    requires !key.deleted && key.worker.Worker? && key.worker.running && !key.workerShouldClose
    requires h.KeyStatus(key.hKey) != Status.Success
    modifies key
    ensures invocations == spins && !key.workerShouldClose && key.Phase() == Watching
    ensures h'.nodes == h.nodes && h'.handles == h.handles
  {
    invocations, h' := key.NotifyWorker(h, _ => true, [], spins);
  }

  /** After a successful `Delete` the key no longer exists. */
  lemma DeletedKeyIsGone(h: Hive, mainKey: PredefinedKey, path: Ptr<CString>, rights: AccessRights)
    ensures var d := Key.Delete(h, mainKey, path, rights);
            d.status == Status.Success ==> !Key.Exists(d.hive, mainKey, path).0
  {
    var d := Key.Delete(h, mainKey, path, rights);
    if d.status == Status.Success {
      var l := h.Below(Root(RootOf(mainKey)), path);
      assert d.hive.Below(Root(RootOf(mainKey)), path) == l;
      assert l !in d.hive.nodes.Keys;
    }
  }

  /** `Exists` changes no key, so asking twice gives the same answer. */
  lemma ExistsIsStable(h: Hive, mainKey: PredefinedKey, path: Ptr<CString>)
    ensures Key.Exists(Key.Exists(h, mainKey, path).1, mainKey, path).0 == Key.Exists(h, mainKey, path).0
  {
  }
}
