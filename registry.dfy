/** `Registry::Key`: a handle on one registry key together with the selector
    and path it was opened with, the rights it was opened with, and the
    state of its change-notification worker. Every operation takes the store
    as it is before the call and returns the store after it; the store's log
    shows the native calls the operation issued, in order.

    Out-pointer parameters are modelled by value: `Null` when the caller
    passes a null pointer, `Ptr(x)` when it passes a pointer to `x`, and the
    operation returns the pointer with its new contents. */
module Registry {
  import opened Flags
  import opened RegTypes
  import opened Store

  /** The rights `Delete` and `DeleteSubkey` accept: none, or both registry
      view selectors. */
  predicate DeleteRightsAllowed(a: AccessRights)
  {
    a == AccessRights.None || a == AccessRights.WoW64Key32.Or(AccessRights.WoW64Key64)
  }

  lemma DeleteRightsAllowedBits(a: AccessRights)
    ensures DeleteRightsAllowed(a) <==> a.bits == 0 || a.bits == 0x300
  {
  }

  /** The status an enumeration loop returns for the status it stopped on. */
  function Normalise(s: Status): (r: Status)
    ensures r == Status.Success <==> s == Status.Success || s == Status.NoMoreItems
    ensures r != Status.Success ==> r == s
  {
    if s == Status.NoMoreItems then Status.Success else s
  }

  /** A scratch buffer of `n` zero bytes. */
  function Zeros(n: nat): (z: seq<byte>)
    ensures |z| == n && forall i | 0 <= i < n :: z[i] == 0
  {
    if n == 0 then [] else Zeros(n - 1) + [0]
  }

  /** The calls `RegEnumValue(k, 0..n-1)`. */
  function EnumValueCalls(k: HKey, n: nat, cap: nat): seq<Call>
  {
    if n == 0 then [] else EnumValueCalls(k, n - 1, cap) + [EnumValueCall(k, n - 1, cap)]
  }

  /** The calls `RegEnumKeyEx(k, 0..n-1)`. */
  function EnumKeyCalls(k: HKey, n: nat, cap: nat): seq<Call>
  {
    if n == 0 then [] else EnumKeyCalls(k, n - 1, cap) + [EnumKeyCall(k, n - 1, cap)]
  }

  /** What the value-enumeration callback is handed: the owning key, the
      name, the type, the scratch data buffer and the data size. The
      accessors of `Registry::Value` are the fields. */
  datatype Value = Value(key: Key, name: Name, kind: DataType, data: seq<byte>, dataSize: nat)

  /** What the sub-key-enumeration callback is handed: a key object sharing
      the parent's handle, selector and rights, whose path is the child's
      name and which was not created. */
  datatype SubKeyView = SubKeyView(hKey: HKey, mainKey: PredefinedKey, subKeyPath: Name,
                                   accessRights: AccessRights, hKeyCreated: bool)

  // ---------------------------------------------------------------------------
  // The steps of the enumeration loops, for the key behind handle `k`

  /** The name buffer size `EnumValues` uses: the longest value name
      reported, plus two. */
  function ValueNameCapacity(h: Hive, k: HKey): nat
  {
    h.QueryInfoKey(k).maxValueNameLen + 2
  }

  /** The size of the scratch data buffer `EnumValues` allocates: the
      largest data size reported. */
  function ValueDataCapacity(h: Hive, k: HKey): nat
  {
    h.QueryInfoKey(k).maxValueLen
  }

  /** What `RegEnumValue` reports for `index` in `EnumValues`. */
  function ValueStep(h: Hive, k: HKey, index: nat): EnumValueResult
  {
    h.EnumValue(k, index, ValueNameCapacity(h, k))
  }

  /** The `Value` that `EnumValues` of `key` hands to the callback for `index`. */
  function ValueAt(h: Hive, key: Key, k: HKey, index: nat): Value
  {
    var r := ValueStep(h, k, index);
    Value(key, r.name, r.kind, Zeros(ValueDataCapacity(h, k)), r.size)
  }

  /** The name buffer size `EnumSubKeys` uses: the longest sub-key name
      reported, plus two. */
  function KeyNameCapacity(h: Hive, k: HKey): nat
  {
    h.QueryInfoKey(k).maxSubKeyLen + 2
  }

  /** What `RegEnumKeyEx` reports for `index` in `EnumSubKeys`. */
  function KeyStep(h: Hive, k: HKey, index: nat): EnumKeyResult
  {
    h.EnumKey(k, index, KeyNameCapacity(h, k))
  }

  /** In a valid store every index below the number of values yields that
      value, and every index past it ends the enumeration. */
  lemma ValueStepInValidStore(h: Hive, k: HKey, index: nat)
    requires h.Valid() && h.KeyStatus(k) == Status.Success
    ensures var n := h.nodes[h.Where(k)];
            if index < |n.valueNames| then
              && n.valueNames[index] in n.values
              && ValueStep(h, k, index).status == Status.Success
              && ValueStep(h, k, index).name == n.valueNames[index]
              && ValueStep(h, k, index).kind == n.values[n.valueNames[index]].kind
              && ValueStep(h, k, index).size == |n.values[n.valueNames[index]].data|
            else
              ValueStep(h, k, index).status == Status.NoMoreItems
  {
    var n := h.nodes[h.Where(k)];
    assert WellFormedNode(n);
  }

  /** In a valid store every index below the number of sub-keys yields that
      sub-key, and every index past it ends the enumeration. */
  lemma KeyStepInValidStore(h: Hive, k: HKey, index: nat)
    requires h.Valid() && h.KeyStatus(k) == Status.Success
    ensures var n := h.nodes[h.Where(k)];
            if index < |n.children| then
              KeyStep(h, k, index).status == Status.Success && KeyStep(h, k, index).name == n.children[index]
            else
              KeyStep(h, k, index).status == Status.NoMoreItems
  {
  }

  /** What the callback of `EnumValues` sees in a valid store: all values
      in order, or the values up to the first one it refuses; and the
      enumeration succeeds. The requirements are what `EnumValues` ensures. */
  lemma ValuesSeenInValidStore(h: Hive, key: Key, k: HKey, callBack: Value -> bool,
                               status: Status, seen: seq<Value>, refused: bool)
    requires forall i | 0 <= i < |seen| :: ValueStep(h, k, i).status == Status.Success && seen[i] == ValueAt(h, key, k, i)
    requires refused ==> |seen| > 0 && !callBack(seen[|seen| - 1]) && status == Status.Success
    requires !refused ==>
               && (|seen| == 0 || callBack(seen[|seen| - 1]))
               && ValueStep(h, k, |seen|).status != Status.Success
               && status == Normalise(ValueStep(h, k, |seen|).status)
    ensures h.Valid() && h.KeyStatus(k) == Status.Success ==>
              var n := h.nodes[h.Where(k)];
              && status == Status.Success
              && |seen| <= |n.valueNames|
              && (forall i | 0 <= i < |seen| :: seen[i].name == n.valueNames[i]
                                                && seen[i].kind == n.values[n.valueNames[i]].kind
                                                && seen[i].dataSize == |n.values[n.valueNames[i]].data|)
              && (|seen| == |n.valueNames| || !callBack(seen[|seen| - 1]))
  {
    if h.Valid() && h.KeyStatus(k) == Status.Success {
      forall i | 0 <= i <= |seen| {
        ValueStepInValidStore(h, k, i);
      }
    }
  }

  /** What the callback of `EnumSubKeys` sees in a valid store: all
      sub-keys in order, or those up to the first one it refuses; and the
      enumeration succeeds. The requirements are what `EnumSubKeys` ensures. */
  lemma SubKeysSeenInValidStore(h: Hive, k: HKey, callBack: SubKeyView -> bool,
                                status: Status, seen: seq<SubKeyView>, refused: bool)
    requires forall i | 0 <= i < |seen| ::
               KeyStep(h, k, i).status == Status.Success && seen[i].subKeyPath == KeyStep(h, k, i).name
    requires refused ==> |seen| > 0 && !callBack(seen[|seen| - 1]) && status == Status.Success
    requires !refused ==>
               && (|seen| == 0 || callBack(seen[|seen| - 1]))
               && KeyStep(h, k, |seen|).status != Status.Success
               && status == Normalise(KeyStep(h, k, |seen|).status)
    ensures h.Valid() && h.KeyStatus(k) == Status.Success ==>
              var n := h.nodes[h.Where(k)];
              && status == Status.Success
              && |seen| <= |n.children|
              && (forall i | 0 <= i < |seen| :: seen[i].subKeyPath == n.children[i])
              && (|seen| == |n.children| || !callBack(seen[|seen| - 1]))
  {
    if h.Valid() && h.KeyStatus(k) == Status.Success {
      forall i | 0 <= i <= |seen| {
        KeyStepInValidStore(h, k, i);
      }
    }
  }

  /** A change to the watched key: the kind of change, and whether it
      happened below the key rather than on it. */
  datatype Change = Change(events: NotifyEvents, inSubtree: bool)

  /** A change ends a wait armed with the filter `events` and `watchSubtree`. */
  predicate Completes(c: Change, events: NotifyEvents, watchSubtree: bool)
  {
    events.Overlaps(c.events) && (watchSubtree || !c.inSubtree)
  }

  /** How many of `changes` end a wait with the given filter. */
  function Wakes(changes: seq<Change>, events: NotifyEvents, watchSubtree: bool): (n: nat)
    ensures n <= |changes|
  {
    if changes == [] then 0
    else Wakes(changes[..|changes| - 1], events, watchSubtree)
         + (if Completes(changes[|changes| - 1], events, watchSubtree) then 1 else 0)
  }

  /** With every event watched over the whole subtree, each change that
      is of some kind wakes the worker. */
  lemma {:induction false} WakesOnEveryChange(changes: seq<Change>)
    requires forall i | 0 <= i < |changes| :: NotifyEvents.All.Overlaps(changes[i].events)
    ensures Wakes(changes, NotifyEvents.All, true) == |changes|
  {
    if changes != [] {
      WakesOnEveryChange(changes[..|changes| - 1]);
    }
  }

  /** An empty filter is never satisfied. */
  lemma {:induction false} NoEventsNoWakes(changes: seq<Change>, watchSubtree: bool)
    ensures Wakes(changes, NotifyEvents(0), watchSubtree) == 0
  {
    if changes != [] {
      NoEventsNoWakes(changes[..|changes| - 1], watchSubtree);
    }
  }

  /** What the model assumes of the environment, not an operation of the
      wrapper: how many of the worker's waits end while it is watched. When
      the key can be watched, a wait ends at each change that passes the
      filter. When it cannot (a bad handle, or a key deleted under the
      handle), the arm fails and returns at once without any change, and its
      status is not looked at, so every wait ends; `spins` is how many of
      these returns the worker is watched for. */
  function WaitsEnded(h: Hive, k: HKey, changes: seq<Change>, events: NotifyEvents, watchSubtree: bool,
                      spins: nat): (n: nat)
    ensures h.NotifyChangeKeyValue(k, watchSubtree, events).status == Status.Success ==>
              n == Wakes(changes, events, watchSubtree) && n <= |changes|
    ensures h.NotifyChangeKeyValue(k, watchSubtree, events).status != Status.Success ==> n == spins
  {
    if h.KeyStatus(k) == Status.Success then Wakes(changes, events, watchSubtree) else spins
  }

  /** The log entries of `n` arms of a wait on `k`. */
  function Arms(k: HKey, watchSubtree: bool, events: NotifyEvents, n: nat): seq<Call>
  {
    if n == 0 then [] else Arms(k, watchSubtree, events, n - 1) + [NotifyCall(k, watchSubtree, events)]
  }

  /** The first of the callback's answers `0..n-1` that is false, or `n`. */
  function FirstRefusal(callBack: nat -> bool, n: nat): (j: nat)
    ensures j <= n
    ensures forall i | 0 <= i < j :: callBack(i)
    ensures j < n ==> !callBack(j)
  {
    RefusalFrom(callBack, 0, n)
  }

  function RefusalFrom(callBack: nat -> bool, from: nat, n: nat): (j: nat)
    requires from <= n
    ensures from <= j <= n
    ensures forall i | from <= i < j :: callBack(i)
    ensures j < n ==> !callBack(j)
    decreases n - from
  {
    if from == n then n else if !callBack(from) then from else RefusalFrom(callBack, from + 1, n)
  }

  /** The notification worker: none, or a thread watching with the given
      filter, which is `running` until it returns. */
  datatype Worker = NoWorker | Worker(events: NotifyEvents, watchSubtree: bool, running: bool)

  /** The worker's state machine. */
  datatype Phase = Idle | Watching | Stopping

  class Key {
    var mainKey: PredefinedKey
    var subKeyPath: Ptr<CString>
    var accessRights: AccessRights
    var hKey: HKey
    var hKeyCreated: bool
    var workerShouldClose: bool
    var worker: Worker
    /** Set by `Close`, which deletes the object: nothing may use it afterwards. */
    var deleted: bool

    /** The default constructor. The sub-key enumeration of the source
        uses it for the key object it hands out; here that object is a
        `SubKeyView`, so nothing in the model calls this. */
    constructor Default()
      ensures mainKey == PredefinedKey.CurrentUser && subKeyPath == Null && accessRights == AccessRights.None
      ensures hKey == NullKey && !hKeyCreated
      ensures !workerShouldClose && worker == NoWorker && !deleted
    {
      mainKey := PredefinedKey.CurrentUser;
      subKeyPath := Null;
      accessRights := AccessRights.None;
      hKey := NullKey;
      hKeyCreated := false;
      workerShouldClose := false;
      worker := NoWorker;
      deleted := false;
    }

    constructor (mainKey: PredefinedKey, subKeyPath: Ptr<CString>, hKeyCreated: bool,
                 accessRights: AccessRights, hKey: HKey)
      ensures this.mainKey == mainKey && this.subKeyPath == subKeyPath && this.accessRights == accessRights
      ensures this.hKey == hKey && this.hKeyCreated == hKeyCreated
      ensures !workerShouldClose && worker == NoWorker && !deleted
    {
      this.mainKey := mainKey;
      this.subKeyPath := subKeyPath;
      this.accessRights := accessRights;
      this.hKey := hKey;
      this.hKeyCreated := hKeyCreated;
      workerShouldClose := false;
      worker := NoWorker;
      deleted := false;
    }

    /** The state of the notification worker. */
    function Phase(): Phase
      reads this
    {
      if worker.NoWorker? then Idle
      else if worker.running && !workerShouldClose then Watching
      else Stopping
    }

    // -------------------------------------------------------------------------
    // Opening, testing and deleting keys by selector and path

    /** Opens, or with `createKey` creates, the key at `subKeyPath` below the
        root `mainKey` selects. The status is written through `statusCode`
        when it is not null; on failure no key is returned. */
    static method OpenKey(h: Hive, mainKey: PredefinedKey, subKeyPath: Ptr<CString>, createKey: bool,
                          accessRights: AccessRights, statusCode: Ptr<Status>)
      returns (key: Key?, statusCode': Ptr<Status>, h': Hive)
      ensures subKeyPath.Null? ==>
                key == null && h' == h && statusCode' == if statusCode.Null? then Null else Ptr(Status.InvalidParameter)
      ensures subKeyPath.Ptr? ==>
                var root := Root(RootOf(mainKey));
                var status := if createKey then h.CreateKeyEx(root, subKeyPath, accessRights).status
                              else h.OpenKeyEx(root, subKeyPath, accessRights).status;
                && statusCode' == (if statusCode.Null? then Null else Ptr(status))
                && (key != null <==> status == Status.Success)
                && h'.log == h.log + [if createKey then CreateKeyCall(root, subKeyPath, accessRights)
                                      else OpenKeyCall(root, subKeyPath, accessRights)]
                && h' == if createKey then h.CreateKeyEx(root, subKeyPath, accessRights).hive
                         else h.OpenKeyEx(root, subKeyPath, accessRights).hive
      ensures subKeyPath.Ptr? && !createKey ==> (key != null <==> h.Below(Root(RootOf(mainKey)), subKeyPath) in h.nodes)
      ensures subKeyPath.Ptr? && createKey && h.Valid() ==> key != null
      ensures !createKey ==> h'.nodes == h.nodes
      ensures key != null ==>
                var l := h.Below(Root(RootOf(mainKey)), subKeyPath);
                && fresh(key) && !key.deleted
                && key.mainKey == mainKey && key.subKeyPath == subKeyPath && key.accessRights == accessRights
                && key.hKeyCreated == (createKey && l !in h.nodes)
                && l in h'.nodes && key.hKey == Handle(h.nextHandle) && h'.Resolves(key.hKey) && h'.Where(key.hKey) == l
                && key.worker == NoWorker && !key.workerShouldClose
      ensures h.Valid() ==> h'.Valid()
    {
      if subKeyPath.Null? {
        statusCode' := if statusCode.Null? then Null else Ptr(Status.InvalidParameter);
        return null, statusCode', h;
      }
      var root := Root(RootOf(mainKey));
      var handle: HKey;
      var status: Status;
      var keyCreated := false;
      if !createKey {
        var r := h.OpenKeyEx(root, subKeyPath, accessRights);
        status, handle, h' := r.status, r.key, r.hive;
      } else {
        var r := h.CreateKeyEx(root, subKeyPath, accessRights);
        CreateKeyExValid(h, root, subKeyPath, accessRights);
        status, handle, h' := r.status, r.key, r.hive;
        keyCreated := r.disposition == CreatedNewKey;
      }
      statusCode' := if statusCode.Null? then Null else Ptr(status);
      if status != Status.Success {
        return null, statusCode', h';
      }
      key := new Key(mainKey, subKeyPath, keyCreated, accessRights, handle);
    }

    /** `Key::Open`: opens an existing key. */
    static method Open(h: Hive, mainKey: PredefinedKey, subKeyPath: Ptr<CString>,
                       accessRights: AccessRights := AccessRights.AllAccess, statusCode: Ptr<Status> := Null)
      returns (key: Key?, statusCode': Ptr<Status>, h': Hive)
      ensures subKeyPath.Null? ==>
                key == null && h' == h && statusCode' == if statusCode.Null? then Null else Ptr(Status.InvalidParameter)
      ensures subKeyPath.Ptr? ==>
                var root := Root(RootOf(mainKey));
                && statusCode' == (if statusCode.Null? then Null else Ptr(h.OpenKeyEx(root, subKeyPath, accessRights).status))
                && h'.log == h.log + [OpenKeyCall(root, subKeyPath, accessRights)]
                && h' == h.OpenKeyEx(root, subKeyPath, accessRights).hive
      ensures key != null <==> subKeyPath.Ptr? && h.Below(Root(RootOf(mainKey)), subKeyPath) in h.nodes
      ensures key != null ==>
                && fresh(key) && !key.deleted && !key.hKeyCreated
                && key.mainKey == mainKey && key.subKeyPath == subKeyPath && key.accessRights == accessRights
                && key.hKey == Handle(h.nextHandle) && h'.Resolves(key.hKey) && h'.Where(key.hKey) == h.Below(Root(RootOf(mainKey)), subKeyPath)
                && key.worker == NoWorker && !key.workerShouldClose && key.Phase() == Idle
      ensures key == null && statusCode.Ptr? ==> statusCode'.Ptr? && statusCode'.target != Status.Success
      ensures h'.nodes == h.nodes && (h.Valid() ==> h'.Valid())
    {
      key, statusCode', h' := OpenKey(h, mainKey, subKeyPath, false, accessRights, statusCode);
    }

    /** `Key::Create`: opens a key, creating it and its missing ancestors. */
    static method Create(h: Hive, mainKey: PredefinedKey, subKeyPath: Ptr<CString>,
                         accessRights: AccessRights := AccessRights.AllAccess, statusCode: Ptr<Status> := Null)
      returns (key: Key?, statusCode': Ptr<Status>, h': Hive)
      ensures subKeyPath.Null? ==>
                key == null && h' == h && statusCode' == if statusCode.Null? then Null else Ptr(Status.InvalidParameter)
      ensures subKeyPath.Ptr? ==>
                var root := Root(RootOf(mainKey));
                var status := h.CreateKeyEx(root, subKeyPath, accessRights).status;
                && statusCode' == (if statusCode.Null? then Null else Ptr(status))
                && (key != null <==> status == Status.Success)
                && h'.log == h.log + [CreateKeyCall(root, subKeyPath, accessRights)]
                && h' == h.CreateKeyEx(root, subKeyPath, accessRights).hive
      ensures subKeyPath.Ptr? && h.Valid() ==> key != null
      ensures key != null ==>
                var l := h.Below(Root(RootOf(mainKey)), subKeyPath);
                && fresh(key) && !key.deleted
                && key.mainKey == mainKey && key.subKeyPath == subKeyPath && key.accessRights == accessRights
                && key.hKeyCreated == (l !in h.nodes) && l in h'.nodes
                && key.hKey == Handle(h.nextHandle) && h'.Resolves(key.hKey) && h'.Where(key.hKey) == l
                && key.worker == NoWorker && !key.workerShouldClose && key.Phase() == Idle
      ensures key != null && statusCode.Ptr? ==> statusCode' == Ptr(Status.Success)
      ensures h.Valid() ==> h'.Valid()
    {
      key, statusCode', h' := OpenKey(h, mainKey, subKeyPath, true, accessRights, statusCode);
    }

    /** `Key::Exists`: whether the key can be opened for querying values;
        the handle it opens is closed again. */
    static function Exists(h: Hive, mainKey: PredefinedKey, subKeyPath: Ptr<CString>): (r: (bool, Hive))
      ensures r.0 <==> subKeyPath.Ptr? && h.Below(Root(RootOf(mainKey)), subKeyPath) in h.nodes
      ensures r.1.nodes == h.nodes && (h.Valid() ==> r.1.handles == h.handles)
      ensures subKeyPath.Null? ==> r.1 == h
      ensures subKeyPath.Ptr? && !r.0 ==>
                r.1.log == h.log + [OpenKeyCall(Root(RootOf(mainKey)), subKeyPath, AccessRights.QueryValue)]
      ensures r.0 ==> r.1.log == h.log + [OpenKeyCall(Root(RootOf(mainKey)), subKeyPath, AccessRights.QueryValue),
                                          CloseKeyCall(Handle(h.nextHandle))]
      ensures h.Valid() ==> r.1.Valid()
    {
      if subKeyPath.Null? then (false, h)
      else
        var o := h.OpenKeyEx(Root(RootOf(mainKey)), subKeyPath, AccessRights.QueryValue);
        if o.status == Status.Success then (true, o.hive.CloseKey(o.key).hive)
        else (false, o.hive)
    }

    /** `Key::Delete`: deletes a key that has no sub-keys, after checking
        the path and the rights. */
    static function Delete(h: Hive, mainKey: PredefinedKey, subKeyPath: Ptr<CString>,
                           accessRights: AccessRights := AccessRights.None): (r: CallResult)
      ensures subKeyPath.Null? || !DeleteRightsAllowed(accessRights) ==> r == CallResult(Status.InvalidParameter, h)
      ensures subKeyPath.Ptr? && DeleteRightsAllowed(accessRights) ==>
                r.hive.log == h.log + [DeleteKeyCall(Root(RootOf(mainKey)), subKeyPath, accessRights)]
      ensures r.status == Status.Success <==>
                && subKeyPath.Ptr? && DeleteRightsAllowed(accessRights)
                && var l := h.Below(Root(RootOf(mainKey)), subKeyPath);
                   l in h.nodes && l.path != [] && h.nodes[l].children == []
      ensures r.status == Status.Success ==>
                r.hive.nodes.Keys == h.nodes.Keys - {h.Below(Root(RootOf(mainKey)), subKeyPath)}
      ensures r.hive.handles == h.handles
      ensures h.Valid() ==> r.hive.Valid()
    {
      if subKeyPath.Null? then CallResult(Status.InvalidParameter, h)
      else if !DeleteRightsAllowed(accessRights) then CallResult(Status.InvalidParameter, h)
      else
        DeleteKeyExValid(h, Root(RootOf(mainKey)), subKeyPath, accessRights);
        h.DeleteKeyEx(Root(RootOf(mainKey)), subKeyPath, accessRights)
    }

    // -------------------------------------------------------------------------
    // Operations on the open key

    /** Deletes the sub-key at `subKeyPath` after checking `accessRights`;
        the delete itself is issued with the key's own rights. */
    function DeleteSubkey(h: Hive, subKeyPath: Ptr<CString>, accessRights: AccessRights := AccessRights.None): (r: CallResult)
      reads this
      ensures !DeleteRightsAllowed(accessRights) ==> r == CallResult(Status.InvalidParameter, h)
      ensures DeleteRightsAllowed(accessRights) ==>
                r.hive.log == h.log + [DeleteKeyCall(hKey, subKeyPath, this.accessRights)]
      ensures r.status == Status.Success <==>
                && DeleteRightsAllowed(accessRights) && subKeyPath.Ptr? && h.Resolves(hKey)
                && var l := h.Below(hKey, subKeyPath);
                   l in h.nodes && l.path != [] && h.nodes[l].children == []
      ensures r.status == Status.Success ==> r.hive.nodes.Keys == h.nodes.Keys - {h.Below(hKey, subKeyPath)}
      ensures r.hive.handles == h.handles
      ensures h.Valid() ==> r.hive.Valid()
    {
      if !DeleteRightsAllowed(accessRights) then CallResult(Status.InvalidParameter, h)
      else
        DeleteKeyExValid(h, hKey, subKeyPath, this.accessRights);
        h.DeleteKeyEx(hKey, subKeyPath, this.accessRights)
    }

    function DeleteValue(h: Hive, valueName: Ptr<CString>): (r: CallResult)
      reads this
      ensures r.status == Status.Success <==> h.HasValue(hKey, valueName)
      ensures !r.hive.HasValue(hKey, valueName)
      ensures r.hive.log == h.log + [DeleteValueCall(hKey, valueName)]
      ensures r.hive.nodes.Keys == h.nodes.Keys && r.hive.handles == h.handles
      ensures h.Valid() ==> r.hive.Valid()
    {
      DeleteValueValid(h, hKey, valueName);
      h.DeleteValue(hKey, valueName)
    }

    function Flush(h: Hive): (r: CallResult)
      reads this
      ensures r.status == Status.Success <==> h.Resolves(hKey)
      ensures r.hive == h.(log := h.log + [FlushCall(hKey)])
    {
      h.FlushKey(hKey)
    }

    /** Stores the first `dataSize` bytes of `data` as the value `valueName`. */
    function SetValue(h: Hive, valueName: Ptr<CString>, data: seq<byte>, dataSize: uint32, dataType: DataType): (r: CallResult)
      reads this
      requires dataSize as int <= |data|
      ensures r.status == Status.Success <==> h.KeyStatus(hKey) == Status.Success
      ensures r.status == Status.Success ==>
                r.hive.HasValue(hKey, valueName) && r.hive.ValueOf(hKey, valueName) == Entry(dataType, data[..dataSize])
      ensures r.hive.log == h.log + [SetValueCall(hKey, valueName, dataType, data[..dataSize])]
      ensures h.Valid() ==> r.hive.Valid()
    {
      SetValueExValid(h, hKey, valueName, dataType, data[..dataSize]);
      h.SetValueEx(hKey, valueName, dataType, data[..dataSize])
    }

    /** Stores `value` as a `REG_SZ` value, its length being its character
        count without the terminator; a null string stores no bytes. */
    function SetValueString(h: Hive, valueName: Ptr<CString>, value: Ptr<CString>): (r: CallResult)
      reads this
      ensures r.status == Status.Success <==> h.KeyStatus(hKey) == Status.Success
      ensures r.status == Status.Success ==>
                && r.hive.HasValue(hKey, valueName)
                && r.hive.ValueOf(hKey, valueName).kind == DataType.String
                && r.hive.ValueOf(hKey, valueName).kind.Code() == 1
                && r.hive.ValueOf(hKey, valueName).data == (if value.Null? then [] else value.target)
                && 0 !in r.hive.ValueOf(hKey, valueName).data
      ensures h.Valid() ==> r.hive.Valid()
    {
      var bytes: seq<byte> := if value.Null? then [] else value.target;
      SetValueExValid(h, hKey, valueName, DataType.String, bytes);
      h.SetValueEx(hKey, valueName, DataType.String, bytes)
    }

    /** Stores `value` as a 4-byte `REG_DWORD` value. */
    function SetValueDWORD(h: Hive, valueName: Ptr<CString>, value: uint32): (r: CallResult)
      reads this
      ensures r.status == Status.Success <==> h.KeyStatus(hKey) == Status.Success
      ensures r.status == Status.Success ==>
                && r.hive.HasValue(hKey, valueName)
                && r.hive.ValueOf(hKey, valueName).kind.Code() == 4
                && |r.hive.ValueOf(hKey, valueName).data| == 4
                && DWordOf(r.hive.ValueOf(hKey, valueName).data) == value
      ensures h.Valid() ==> r.hive.Valid()
    {
      DWordRoundTrip(value, []);
      SetValueExValid(h, hKey, valueName, DataType.DWord, DWordBytes(value));
      h.SetValueEx(hKey, valueName, DataType.DWord, DWordBytes(value))
    }

    /** Stores `value` as an 8-byte `REG_QWORD` value. */
    function SetValueQWORD(h: Hive, valueName: Ptr<CString>, value: uint64): (r: CallResult)
      reads this
      ensures r.status == Status.Success <==> h.KeyStatus(hKey) == Status.Success
      ensures r.status == Status.Success ==>
                && r.hive.HasValue(hKey, valueName)
                && r.hive.ValueOf(hKey, valueName).kind.Code() == 11
                && |r.hive.ValueOf(hKey, valueName).data| == 8
                && QWordOf(r.hive.ValueOf(hKey, valueName).data) == value
      ensures h.Valid() ==> r.hive.Valid()
    {
      QWordRoundTrip(value, []);
      SetValueExValid(h, hKey, valueName, DataType.QWord, QWordBytes(value));
      h.SetValueEx(hKey, valueName, DataType.QWord, QWordBytes(value))
    }

    /** Reads a value of any type: its type and size are written through
        `dataType` and `dataSize`, and its bytes through `data` into a
        buffer two bytes larger than the size first reported. */
    method GetValue(h: Hive, valueName: Ptr<CString>, data: Ptr<Ptr<seq<byte>>>, dataSize: Ptr<nat>, dataType: Ptr<DataType>)
      returns (status: Status, data': Ptr<Ptr<seq<byte>>>, dataSize': Ptr<nat>, dataType': Ptr<DataType>, h': Hive)
      ensures data.Null? && dataSize.Null? && dataType.Null? ==>
                status == Status.InvalidParameter && h' == h
      ensures status == Status.Success <==> !(data.Null? && dataSize.Null? && dataType.Null?) && h.HasValue(hKey, valueName)
      ensures status != Status.Success ==> data' == data && dataSize' == dataSize && dataType' == dataType
      ensures !(data.Null? && dataSize.Null? && dataType.Null?) && status != Status.Success ==>
                status == h.GetValue(hKey, valueName, AnyType, Null).status
      ensures status == Status.Success ==>
                var e := h.ValueOf(hKey, valueName);
                && dataType' == (if dataType.Null? then Null else Ptr(e.kind))
                && dataSize' == (if dataSize.Null? then Null else Ptr(|Payload(e)|))
                && data' == (if data.Null? then Null else Ptr(Ptr(Payload(e))))
      ensures !(data.Null? && dataSize.Null? && dataType.Null?) ==>
                var probe := GetValueCall(hKey, valueName, AnyType, Null);
                if status == Status.Success && data.Ptr? then
                  h'.log == h.log + [probe, GetValueCall(hKey, valueName, AnyType, Ptr(|Payload(h.ValueOf(hKey, valueName))| + 2))]
                else
                  h'.log == h.log + [probe]
      ensures h' == h.(log := h'.log)
    {
      if data.Null? && dataSize.Null? && dataType.Null? {
        return Status.InvalidParameter, data, dataSize, dataType, h;
      }
      data', dataSize', dataType' := data, dataSize, dataType;
      var r := h.GetValue(hKey, valueName, AnyType, Null);
      h' := r.hive;
      if r.status != Status.Success {
        return r.status, data', dataSize', dataType', h';
      }
      if dataType.Ptr? {
        dataType' := Ptr(r.kind);
      }
      if dataSize.Ptr? {
        dataSize' := Ptr(r.size);
      }
      if data.Ptr? {
        var read := h'.GetValue(hKey, valueName, AnyType, Ptr(r.size + 2));
        h' := read.hive;
        if read.status != Status.Success {
          data' := Ptr(Null);
          return read.status, data', dataSize', dataType', h';
        }
        data' := Ptr(Ptr(read.data));
      }
      status := Status.Success;
    }

    /** Reads a string value (`REG_SZ`, `REG_EXPAND_SZ` or `REG_MULTI_SZ`)
        into a buffer two bytes larger than the size first reported. */
    method GetValueString(h: Hive, valueName: Ptr<CString>, value: Ptr<Ptr<seq<byte>>>)
      returns (status: Status, value': Ptr<Ptr<seq<byte>>>, h': Hive)
      ensures value.Null? ==> status == Status.InvalidParameter && h' == h
      ensures status == Status.Success <==> value.Ptr? && h.HasValue(hKey, valueName) && h.ValueOf(hKey, valueName).kind.IsText()
      ensures status != Status.Success ==> value' == value
      ensures value.Ptr? && status != Status.Success ==> status == h.GetValue(hKey, valueName, TextOnly, Null).status
      ensures status == Status.Success ==>
                var p := Payload(h.ValueOf(hKey, valueName));
                && value' == Ptr(Ptr(p))
                && h'.log == h.log + [GetValueCall(hKey, valueName, TextOnly, Null),
                                      GetValueCall(hKey, valueName, TextOnly, Ptr(|p| + 2))]
      ensures value.Ptr? && status != Status.Success ==> h'.log == h.log + [GetValueCall(hKey, valueName, TextOnly, Null)]
      ensures h' == h.(log := h'.log)
    {
      if value.Null? {
        return Status.InvalidParameter, value, h;
      }
      value' := value;
      var r := h.GetValue(hKey, valueName, TextOnly, Null);
      h' := r.hive;
      if r.status != Status.Success {
        return r.status, value', h';
      }
      var read := h'.GetValue(hKey, valueName, TextOnly, Ptr(r.size + 2));
      h' := read.hive;
      if read.status != Status.Success {
        value' := Ptr(Null);
        return read.status, value', h';
      }
      value' := Ptr(Ptr(read.data));
      status := Status.Success;
    }

    /** Reads a 4-byte value (`REG_DWORD`, or `REG_BINARY` of that size).
        The output is written only on success. */
    method GetValueDWORD(h: Hive, valueName: Ptr<CString>, value: Ptr<uint32>)
      returns (status: Status, value': Ptr<uint32>, h': Hive)
      ensures value.Null? ==> status == Status.InvalidParameter && h' == h
      ensures status == Status.Success <==>
                && value.Ptr? && h.HasValue(hKey, valueName)
                && h.ValueOf(hKey, valueName).kind in {DataType.DWord, DataType.Binary}
                && |h.ValueOf(hKey, valueName).data| == 4
      ensures status == Status.Success ==> value' == Ptr(DWordOf(h.ValueOf(hKey, valueName).data))
      ensures status != Status.Success ==> value' == value
      ensures value.Ptr? && status != Status.Success ==> status == h.GetValue(hKey, valueName, DWordOnly, Ptr(4)).status
      ensures value.Ptr? ==> h'.log == h.log + [GetValueCall(hKey, valueName, DWordOnly, Ptr(4))]
      ensures h' == h.(log := h'.log)
    {
      if value.Null? {
        return Status.InvalidParameter, value, h;
      }
      var r := h.GetValue(hKey, valueName, DWordOnly, Ptr(4));
      h' := r.hive;
      if r.status != Status.Success {
        return r.status, value, h';
      }
      value' := Ptr(DWordOf(r.data));
      status := Status.Success;
    }

    /** Reads an 8-byte value (`REG_QWORD`, or `REG_BINARY` of that size).
        The output is written only on success. */
    method GetValueQWORD(h: Hive, valueName: Ptr<CString>, value: Ptr<uint64>)
      returns (status: Status, value': Ptr<uint64>, h': Hive)
      ensures value.Null? ==> status == Status.InvalidParameter && h' == h
      ensures status == Status.Success <==>
                && value.Ptr? && h.HasValue(hKey, valueName)
                && h.ValueOf(hKey, valueName).kind in {DataType.QWord, DataType.Binary}
                && |h.ValueOf(hKey, valueName).data| == 8
      ensures status == Status.Success ==> value' == Ptr(QWordOf(h.ValueOf(hKey, valueName).data))
      ensures status != Status.Success ==> value' == value
      ensures value.Ptr? && status != Status.Success ==> status == h.GetValue(hKey, valueName, QWordOnly, Ptr(8)).status
      ensures value.Ptr? ==> h'.log == h.log + [GetValueCall(hKey, valueName, QWordOnly, Ptr(8))]
      ensures h' == h.(log := h'.log)
    {
      if value.Null? {
        return Status.InvalidParameter, value, h;
      }
      var r := h.GetValue(hKey, valueName, QWordOnly, Ptr(8));
      h' := r.hive;
      if r.status != Status.Success {
        return r.status, value, h';
      }
      value' := Ptr(QWordOf(r.data));
      status := Status.Success;
    }

    // -------------------------------------------------------------------------
    // Enumeration

    /** Calls `callBack` on the values at indices 0, 1, 2, … until a step
        fails or the callback returns false. `seen` is the sequence of
        values the callback was handed, and `refused` says whether the
        callback stopped the enumeration. Running out of values, or being
        stopped by the callback, counts as success. */
    method EnumValues(h: Hive, callBack: Value -> bool)
      returns (status: Status, seen: seq<Value>, h': Hive, ghost refused: bool)
      ensures h' == h.(log := h.log + [QueryInfoCall(hKey)]
                                + EnumValueCalls(hKey, if refused then |seen| else |seen| + 1, ValueNameCapacity(h, hKey)))
      ensures forall i | 0 <= i < |seen| ::
                ValueStep(h, hKey, i).status == Status.Success && seen[i] == ValueAt(h, this, hKey, i)
      ensures forall i | 0 <= i < |seen| - 1 :: callBack(seen[i])
      ensures refused ==> |seen| > 0 && !callBack(seen[|seen| - 1]) && status == Status.Success
      ensures !refused ==>
                && (|seen| == 0 || callBack(seen[|seen| - 1]))
                && ValueStep(h, hKey, |seen|).status != Status.Success
                && status == Normalise(ValueStep(h, hKey, |seen|).status)
    {
      var info := h.QueryInfoKey(hKey);
      h' := info.hive;
      status := info.status;
      var cap := info.maxValueNameLen + 2;
      var scratch := Zeros(info.maxValueLen);
      ghost var bound := if h.KeyStatus(hKey) == Status.Success then |h.nodes[h.Where(hKey)].valueNames| else 0;
      var index: nat := 0;
      seen := [];
      refused := false;
      // The do-while loop of the source: the test follows the body.
      while true
        invariant index <= bound && |seen| == index && !refused
        invariant cap == ValueNameCapacity(h, hKey) && scratch == Zeros(ValueDataCapacity(h, hKey))
        invariant h' == h.(log := h.log + [QueryInfoCall(hKey)] + EnumValueCalls(hKey, index, cap))
        invariant forall i | 0 <= i < index ::
                    ValueStep(h, hKey, i).status == Status.Success && seen[i] == ValueAt(h, this, hKey, i)
                    && callBack(seen[i])
        decreases bound - index
      {
        var r := h'.EnumValue(hKey, index, cap);
        h' := r.hive;
        status := r.status;
        if status == Status.Success {
          var val := Value(this, r.name, r.kind, scratch, r.size);
          seen := seen + [val];
          if !callBack(val) {
            status := Status.NoMoreItems;
            refused := true;
          }
        }
        index := index + 1;
        if status != Status.Success {
          break;
        }
      }
      status := Normalise(status);
    }

    /** Calls `callBack` on the sub-keys at indices 0, 1, 2, … until a step
        fails or the callback returns false. Each sub-key is handed over as
        a view sharing this key's handle, selector and rights. */
    method EnumSubKeys(h: Hive, callBack: SubKeyView -> bool)
      returns (status: Status, seen: seq<SubKeyView>, h': Hive, ghost refused: bool)
      ensures h' == h.(log := h.log + [QueryInfoCall(hKey)]
                                + EnumKeyCalls(hKey, if refused then |seen| else |seen| + 1, KeyNameCapacity(h, hKey)))
      ensures forall i | 0 <= i < |seen| ::
                KeyStep(h, hKey, i).status == Status.Success
                && seen[i] == SubKeyView(hKey, mainKey, KeyStep(h, hKey, i).name, accessRights, false)
      ensures forall i | 0 <= i < |seen| - 1 :: callBack(seen[i])
      ensures refused ==> |seen| > 0 && !callBack(seen[|seen| - 1]) && status == Status.Success
      ensures !refused ==>
                && (|seen| == 0 || callBack(seen[|seen| - 1]))
                && KeyStep(h, hKey, |seen|).status != Status.Success
                && status == Normalise(KeyStep(h, hKey, |seen|).status)
    {
      var info := h.QueryInfoKey(hKey);
      h' := info.hive;
      status := info.status;
      var cap := info.maxSubKeyLen + 2;
      ghost var bound := if h.KeyStatus(hKey) == Status.Success then |h.nodes[h.Where(hKey)].children| else 0;
      var index: nat := 0;
      seen := [];
      refused := false;
      while true
        invariant index <= bound && |seen| == index && !refused
        invariant cap == KeyNameCapacity(h, hKey)
        invariant h' == h.(log := h.log + [QueryInfoCall(hKey)] + EnumKeyCalls(hKey, index, cap))
        invariant forall i | 0 <= i < index ::
                    KeyStep(h, hKey, i).status == Status.Success
                    && seen[i] == SubKeyView(hKey, mainKey, KeyStep(h, hKey, i).name, accessRights, false)
                    && callBack(seen[i])
        decreases bound - index
      {
        var r := h'.EnumKey(hKey, index, cap);
        h' := r.hive;
        status := r.status;
        if status == Status.Success {
          var key := SubKeyView(hKey, mainKey, r.name, accessRights, false);
          seen := seen + [key];
          if !callBack(key) {
            status := Status.NoMoreItems;
            refused := true;
          }
        }
        index := index + 1;
        if status != Status.Success {
          break;
        }
      }
      status := Normalise(status);
    }

    // -------------------------------------------------------------------------
    // Change notification

    /** Starts a notification worker watching for `events`. A worker that
        is already there is stopped first: the stop flag is raised, the
        handle closed, the worker joined and the key reopened. */
    method AddNotify(h: Hive, events: NotifyEvents := NotifyEvents.All, watchSubtree: bool := true)
      returns (status: Status, h': Hive)
      requires !deleted
      modifies this
      ensures mainKey == old(mainKey) && subKeyPath == old(subKeyPath) && accessRights == old(accessRights)
      ensures hKeyCreated == old(hKeyCreated) && !deleted
      ensures old(worker).NoWorker? ==>
                status == Status.Success && h' == h && hKey == old(hKey)
      ensures old(worker).Worker? ==>
                var g := if old(hKey) != NullKey then h.CloseKey(old(hKey)).hive else h;
                var o := g.OpenKeyEx(Root(RootOf(mainKey)), subKeyPath, accessRights);
                && status == o.status && hKey == o.key && h' == o.hive
                && (h.Valid() && old(hKey).Handle? && old(hKey).id in h.handles ==> old(hKey).id !in h'.handles)
      ensures status == Status.Success ==> worker == Worker(events, watchSubtree, true) && Phase() == Watching
      ensures status != Status.Success ==> worker == NoWorker && workerShouldClose && Phase() == Idle
      ensures h'.nodes == h.nodes && (h.Valid() ==> h'.Valid())
    {
      status := Status.Success;
      h' := h;
      if worker.Worker? {
        workerShouldClose := true;
        if hKey != NullKey {
          h' := h'.CloseKey(hKey).hive;
          hKey := NullKey;
        }
        if worker.Worker? {
          // Joining: with the handle closed the worker's pending wait ends,
          // it finds the stop flag raised and returns.
          worker := worker.(running := false);
          worker := NoWorker;
        }
        var o := h'.OpenKeyEx(Root(RootOf(mainKey)), subKeyPath, accessRights);
        status, hKey, h' := o.status, o.key, o.hive;
        if status != Status.Success {
          return;
        }
      }
      workerShouldClose := false;
      worker := Worker(events, watchSubtree, true);
    }

    /** What the worker does when the callback asks it to stop: closes the
        handle if there is one, then opens the key afresh from its selector,
        path and rights. */
    method Reopen(h: Hive) returns (status: Status, h': Hive)
      modifies this
      ensures mainKey == old(mainKey) && subKeyPath == old(subKeyPath) && accessRights == old(accessRights)
      ensures hKeyCreated == old(hKeyCreated) && deleted == old(deleted)
      ensures worker == old(worker) && workerShouldClose == old(workerShouldClose)
      ensures var g := if old(hKey) != NullKey then h.CloseKey(old(hKey)).hive else h;
              var o := g.OpenKeyEx(Root(RootOf(mainKey)), subKeyPath, accessRights);
              status == o.status && hKey == o.key && h' == o.hive
      ensures status == Status.Success <==> h.Below(Root(RootOf(mainKey)), subKeyPath) in h.nodes
      ensures status == Status.Success ==>
                h'.Resolves(hKey) && h'.Where(hKey) == h.Below(Root(RootOf(mainKey)), subKeyPath)
      ensures status != Status.Success ==> hKey == NullKey
      ensures h.Valid() && old(hKey).Handle? && old(hKey).id in h.handles ==> old(hKey).id !in h'.handles
      ensures h.Valid() ==>
                forall id | id in h.handles && Handle(id) != old(hKey) :: id in h'.handles && h'.handles[id] == h.handles[id]
      ensures h'.nodes == h.nodes && (h.Valid() ==> h'.Valid())
    {
      h' := h;
      if hKey != NullKey {
        h' := h'.CloseKey(hKey).hive;
        hKey := NullKey;
      }
      var o := h'.OpenKeyEx(Root(RootOf(mainKey)), subKeyPath, accessRights);
      status, hKey, h' := o.status, o.key, o.hive;
    }

    /** The worker thread, run without interference: it arms a wait on the
        key, and each time the wait ends it calls the callback, whose answer
        to its `i`-th call is `callBack(i)`. A wait ends at each of `changes`
        that passes the filter, or at once when the arm fails (see
        `WaitsEnded`). On a false answer it closes the handle, reopens the
        key, raises the stop flag and returns. When no further wait ends it
        is left waiting. */
    method NotifyWorker(h: Hive, callBack: nat -> bool, changes: seq<Change>, spins: nat)
      returns (invocations: nat, h': Hive)
      requires !deleted && worker.Worker? && worker.running && !workerShouldClose
      modifies this
      ensures mainKey == old(mainKey) && subKeyPath == old(subKeyPath) && accessRights == old(accessRights)
      ensures hKeyCreated == old(hKeyCreated) && !deleted
      ensures h'.nodes == h.nodes && (h.Valid() ==> h'.Valid())
      ensures var waits := WaitsEnded(h, old(hKey), changes, old(worker).events, old(worker).watchSubtree, spins);
              && (invocations == if workerShouldClose then FirstRefusal(callBack, waits) + 1 else FirstRefusal(callBack, waits))
              && (workerShouldClose <==> FirstRefusal(callBack, waits) < waits)
      ensures !workerShouldClose ==>
                && worker == old(worker) && hKey == old(hKey) && Phase() == Watching
                && h' == h.(log := h.log + Arms(old(hKey), old(worker).watchSubtree, old(worker).events, invocations + 1))
      ensures workerShouldClose ==>
                var armed := h.(log := h.log + Arms(old(hKey), old(worker).watchSubtree, old(worker).events, invocations));
                var g := if old(hKey) != NullKey then armed.CloseKey(old(hKey)).hive else armed;
                var o := g.OpenKeyEx(Root(RootOf(mainKey)), subKeyPath, accessRights);
                h' == o.hive && hKey == o.key
      ensures workerShouldClose && h.Valid() ==>
                forall id | id in h.handles && Handle(id) != old(hKey) :: id in h'.handles && h'.handles[id] == h.handles[id]
      ensures workerShouldClose ==>
                && worker == old(worker).(running := false) && Phase() == Stopping
                && (h.Valid() && old(hKey).Handle? && old(hKey).id in h.handles ==> old(hKey).id !in h'.handles)
                && (hKey != NullKey <==> h.Below(Root(RootOf(mainKey)), subKeyPath) in h.nodes)
                && (hKey != NullKey ==> h'.Resolves(hKey) && h'.Where(hKey) == h.Below(Root(RootOf(mainKey)), subKeyPath))
    {
      var waits := WaitsEnded(h, hKey, changes, worker.events, worker.watchSubtree, spins);
      ghost var stop := FirstRefusal(callBack, waits);
      h' := h;
      invocations := 0;
      while !workerShouldClose
        invariant invocations <= stop <= waits
        invariant !workerShouldClose && worker == old(worker) && hKey == old(hKey)
        invariant h' == h.(log := h.log + Arms(hKey, worker.watchSubtree, worker.events, invocations))
        decreases waits - invocations
      {
        // The status of the arm is not looked at.
        h' := h'.NotifyChangeKeyValue(hKey, worker.watchSubtree, worker.events).hive;
        assert h'.log == h.log + Arms(hKey, worker.watchSubtree, worker.events, invocations + 1);
        if invocations == waits {
          // No further wait ends: the call does not return.
          return;
        }
        // The source checks the flag again here; only a concurrent stop
        // could have raised it since the loop test.
        if !workerShouldClose {
          var answer := callBack(invocations);
          invocations := invocations + 1;
          if !answer {
            ghost var armed := h';
            assert armed == h.(log := h.log + Arms(hKey, worker.watchSubtree, worker.events, invocations));
            assert armed.nodes == h.nodes && armed.handles == h.handles && (armed.Valid() <==> h.Valid());
            assert armed.Below(Root(RootOf(mainKey)), subKeyPath) == h.Below(Root(RootOf(mainKey)), subKeyPath);
            var _, reopened := Reopen(h');
            h' := reopened;
            workerShouldClose := true;
            worker := worker.(running := false);
            return;
          }
        }
      }
    }

    /** `Key::Close`: raises the stop flag, closes the handle if there is
        one, joins the worker if there is one, frees the path and deletes
        the object. */
    method Close(h: Hive) returns (h': Hive)
      requires !deleted
      modifies this
      ensures workerShouldClose && deleted && subKeyPath == Null
      ensures hKey == old(hKey)
      ensures worker == if old(worker).NoWorker? then NoWorker else old(worker).(running := false)
      ensures h' == if old(hKey) != NullKey then h.CloseKey(old(hKey)).hive else h
      ensures old(hKey).Handle? ==> old(hKey).id !in h'.handles
      ensures h'.nodes == h.nodes && (h.Valid() ==> h'.Valid())
    {
      workerShouldClose := true;
      h' := h;
      if hKey != NullKey {
        h' := h'.CloseKey(hKey).hive;
      }
      if worker.Worker? {
        worker := worker.(running := false);
      }
      subKeyPath := Null;
      deleted := true;
    }
  }
}
