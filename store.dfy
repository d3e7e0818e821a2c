/** An abstract model of the native registry the wrapper drives, in place of
    the Win32 calls it makes. A `Hive` maps (root, path) locations to nodes;
    each node holds a value table and the ordered names of its child keys.
    Open handles map to the location they were opened on. Every native call
    is a total function from a hive to its status, its outputs and the next
    hive, and appends a record of itself to the hive's call log. Other
    parties that change the registry, access checks, security, registry views
    and persistence are outside this model. */
module Store {
  import opened Flags
  import opened RegTypes

  /** An `HKEY`: null, one of the predefined roots, or a handle returned by
      an open or create call. */
  datatype HKey = NullKey | Root(root: RootKey) | Handle(id: nat)

  /** A key or value name, as stored. */
  type Name = seq<byte>

  const Backslash: byte := 92

  datatype Location = Location(root: RootKey, path: seq<Name>)

  /** A stored value: its type tag and its data bytes. */
  datatype Entry = Entry(kind: DataType, data: seq<byte>)

  /** A key: its values, in enumeration order, and its child keys' names,
      in enumeration order. */
  datatype Node = Node(valueNames: seq<Name>, values: map<Name, Entry>, children: seq<Name>)

  const EmptyNode := Node([], map[], [])

  /** The type restriction RegGetValue applies: `RRF_RT_ANY`,
      `RRF_RT_DWORD` (a 4-byte DWORD or binary value), `RRF_RT_QWORD`
      (an 8-byte QWORD or binary value), or the three string types. */
  datatype Restrict = AnyType | DWordOnly | QWordOnly | TextOnly {
    predicate Accepts(t: DataType)
    {
      match this
      case AnyType => true
      case DWordOnly => t == DataType.DWord || t == DataType.Binary
      case QWordOnly => t == DataType.QWord || t == DataType.Binary
      case TextOnly => t.IsText()
    }

    /** The data size a fixed-size restriction demands, or 0 for none. */
    function FixedSize(): nat
    {
      match this
      case DWordOnly => 4
      case QWordOnly => 8
      case _ => 0
    }
  }

  /** A native call, as recorded in the hive's log. */
  datatype Call =
    | OpenKeyCall(parent: HKey, subKey: Ptr<CString>, sam: AccessRights)
    | CreateKeyCall(parent: HKey, subKey: Ptr<CString>, sam: AccessRights)
    | CloseKeyCall(key: HKey)
    | DeleteKeyCall(parent: HKey, subKey: Ptr<CString>, sam: AccessRights)
    | DeleteValueCall(key: HKey, name: Ptr<CString>)
    | SetValueCall(key: HKey, name: Ptr<CString>, kind: DataType, data: seq<byte>)
    | GetValueCall(key: HKey, name: Ptr<CString>, restrict: Restrict, buffer: Ptr<nat>)
    | EnumValueCall(key: HKey, index: nat, nameCapacity: nat)
    | EnumKeyCall(key: HKey, index: nat, nameCapacity: nat)
    | QueryInfoCall(key: HKey)
    | FlushCall(key: HKey)
    | NotifyCall(key: HKey, watchSubtree: bool, events: NotifyEvents)

  /** Whether RegCreateKeyEx made the key or found it. */
  datatype Disposition = CreatedNewKey | OpenedExistingKey

  datatype OpenResult = OpenResult(status: Status, key: HKey, hive: Hive)
  datatype CreateResult = CreateResult(status: Status, key: HKey, disposition: Disposition, hive: Hive)
  datatype CallResult = CallResult(status: Status, hive: Hive)
  /** RegGetValue's outputs: the type, the size in bytes and, when a buffer
      was given and was large enough, the bytes read. */
  datatype GetResult = GetResult(status: Status, kind: DataType, size: nat, data: seq<byte>, hive: Hive)
  datatype EnumValueResult = EnumValueResult(status: Status, name: Name, kind: DataType, size: nat, hive: Hive)
  datatype EnumKeyResult = EnumKeyResult(status: Status, name: Name, hive: Hive)
  /** RegQueryInfoKey's outputs: counts and maximum lengths (names without
      their terminator, data in bytes). */
  datatype InfoResult = InfoResult(status: Status, subKeys: nat, maxSubKeyLen: nat, values: nat,
                                   maxValueNameLen: nat, maxValueLen: nat, hive: Hive)

  // ---------------------------------------------------------------------------
  // Paths

  /** The position of the first `x` in `s`, or `|s|`. */
  function IndexOf(s: seq<byte>, x: byte): (i: nat)
    ensures i <= |s|
    ensures i < |s| ==> s[i] == x
    ensures forall j | 0 <= j < i :: s[j] != x
  {
    if s == [] then 0 else if s[0] == x then 0 else 1 + IndexOf(s[1..], x)
  }

  /** The pieces of `s` between backslashes (at least one). */
  function Pieces(s: seq<byte>): seq<Name>
    decreases |s|
  {
    var i := IndexOf(s, Backslash);
    if i == |s| then [s] else [s[..i]] + Pieces(s[i + 1..])
  }

  /** The key names along a relative path; the empty path names the key itself. */
  function Components(s: seq<byte>): seq<Name>
  {
    if s == [] then [] else Pieces(s)
  }

  /** The names a possibly-null sub-key pointer adds to a location. */
  function SubPath(sub: Ptr<CString>): seq<Name>
  {
    if sub.Null? then [] else Components(sub.target)
  }

  function Parent(l: Location): Location
    requires l.path != []
  {
    Location(l.root, l.path[..|l.path| - 1])
  }

  function Last(l: Location): Name
    requires l.path != []
  {
    l.path[|l.path| - 1]
  }

  function Child(l: Location, name: Name): Location
  {
    Location(l.root, l.path + [name])
  }

  /** The name a possibly-null value-name pointer stands for: null and the
      empty string both name the key's default value. */
  function ValueName(name: Ptr<CString>): Name
  {
    if name.Null? then [] else name.target
  }

  // ---------------------------------------------------------------------------
  // Sequence helpers

  ghost predicate Distinct(s: seq<Name>)
  {
    forall i, j | 0 <= i < j < |s| :: s[i] != s[j]
  }

  /** `s` without its occurrences of `x`. */
  function Remove(s: seq<Name>, x: Name): (r: seq<Name>)
    ensures forall y :: y in r <==> y in s && y != x
    ensures x !in s ==> r == s
  {
    if s == [] then []
    else if s[0] == x then Remove(s[1..], x)
    else [s[0]] + Remove(s[1..], x)
  }

  lemma {:induction false} RemoveDistinct(s: seq<Name>, x: Name)
    requires Distinct(s)
    ensures Distinct(Remove(s, x))
  {
    if s != [] {
      RemoveDistinct(s[1..], x);
      if s[0] != x {
        assert s[0] !in s[1..];
        assert s[0] !in Remove(s[1..], x);
      }
    }
  }

  /** The length of the longest name in `s`. */
  function MaxLen(s: seq<Name>): (m: nat)
    ensures forall i | 0 <= i < |s| :: |s[i]| <= m
  {
    if s == [] then 0 else
      var m := MaxLen(s[1..]);
      if |s[0]| > m then |s[0]| else m
  }

  /** The size of the largest data among the values `names` of `values`. */
  function MaxData(names: seq<Name>, values: map<Name, Entry>): (m: nat)
    ensures forall i | 0 <= i < |names| && names[i] in values :: |values[names[i]].data| <= m
  {
    if names == [] then 0 else
      var m := MaxData(names[1..], values);
      if names[0] in values && |values[names[0]].data| > m then |values[names[0]].data| else m
  }

  /** The bytes RegGetValue returns for a value: the stored data, with a
      terminator added to text that lacks one. */
  function Payload(e: Entry): (p: seq<byte>)
    ensures e.kind.IsText() ==> |p| > 0 && p[|p| - 1] == 0
    ensures |e.data| <= |p| <= |e.data| + 1 && p[..|e.data|] == e.data
    ensures !e.kind.IsText() ==> p == e.data
  {
    if e.kind.IsText() && (e.data == [] || e.data[|e.data| - 1] != 0) then e.data + [0] else e.data
  }

  ghost predicate WellFormedNode(n: Node)
  {
    && Distinct(n.valueNames)
    && (forall x :: x in n.values <==> x in n.valueNames)
    && Distinct(n.children)
  }

  // The conditions that make up a valid hive. Each depends on the parts of
  // the hive it names, so that hives differing only in their logs satisfy
  // them alike.

  ghost predicate RootsPresent(nodes: map<Location, Node>)
  {
    forall r: RootKey :: Location(r, []) in nodes
  }

  ghost predicate NodesWellFormed(nodes: map<Location, Node>)
  {
    forall l | l in nodes :: WellFormedNode(nodes[l])
  }

  ghost predicate ParentsLink(nodes: map<Location, Node>)
  {
    forall l | l in nodes && l.path != [] :: Parent(l) in nodes && Last(l) in nodes[Parent(l)].children
  }

  ghost predicate ChildrenPresent(nodes: map<Location, Node>)
  {
    forall l, c | l in nodes && c in nodes[l].children :: Child(l, c) in nodes
  }

  ghost predicate HandlesIssued(handles: map<nat, Location>, nextHandle: nat)
  {
    forall id | id in handles :: id < nextHandle
  }

  datatype Hive = Hive(nodes: map<Location, Node>, handles: map<nat, Location>, nextHandle: nat, log: seq<Call>)
  {
    /** The hive's shape: every root exists; nodes are well formed; each key
        but a root is listed among its parent's children, and each listed
        child exists; handles are below the next one to be handed out. */
    ghost predicate Valid()
    {
      && RootsPresent(nodes) && NodesWellFormed(nodes) && ParentsLink(nodes) && ChildrenPresent(nodes)
      && HandlesIssued(handles, nextHandle)
    }

    function Record(c: Call): Hive
    {
      this.(log := log + [c])
    }

    predicate Resolves(k: HKey)
    {
      match k
      case NullKey => false
      case Root(_) => true
      case Handle(id) => id in handles
    }

    /** The location an open `HKEY` refers to. */
    function Where(k: HKey): Location
      requires Resolves(k)
    {
      match k
      case Root(r) => Location(r, [])
      case Handle(id) => handles[id]
    }

    function Below(k: HKey, sub: Ptr<CString>): Location
      requires Resolves(k)
    {
      Location(Where(k).root, Where(k).path + SubPath(sub))
    }

    /** A fresh handle for `l`. */
    function Alloc(l: Location): (r: (HKey, Hive))
      ensures r.0 == Handle(nextHandle)
    {
      (Handle(nextHandle), this.(handles := handles[nextHandle := l], nextHandle := nextHandle + 1))
    }

    // -------------------------------------------------------------------------
    // Keys

    /** RegOpenKeyEx: a new handle to an existing key. */
    function OpenKeyEx(parent: HKey, sub: Ptr<CString>, sam: AccessRights): (r: OpenResult)
      ensures r.status == Status.Success <==> Resolves(parent) && Below(parent, sub) in nodes
      ensures r.status == Status.Success ==>
                && r.key == Handle(nextHandle) && r.hive.Resolves(r.key) && r.hive.Where(r.key) == Below(parent, sub)
                && r.hive.handles == handles[nextHandle := Below(parent, sub)] && r.hive.nextHandle == nextHandle + 1
      ensures r.status != Status.Success ==> r.key == NullKey && r.hive == Record(OpenKeyCall(parent, sub, sam))
      ensures r.hive.nodes == nodes && r.hive.log == log + [OpenKeyCall(parent, sub, sam)]
    {
      var h := Record(OpenKeyCall(parent, sub, sam));
      if !Resolves(parent) then OpenResult(Status.InvalidHandle, NullKey, h)
      else if Below(parent, sub) !in nodes then OpenResult(Status.FileNotFound, NullKey, h)
      else
        var (k, h') := h.Alloc(Below(parent, sub));
        OpenResult(Status.Success, k, h')
    }

    /** The hive with `Location(root, path)` and its missing ancestors
        created, each new key appended to its parent's children. */
    function EnsurePath(root: RootKey, path: seq<Name>): (h: Hive)
      decreases |path|
      ensures Location(root, path) in h.nodes
      ensures nodes.Keys <= h.nodes.Keys
      ensures forall l | l in nodes :: h.nodes[l].values == nodes[l].values
                                      && h.nodes[l].valueNames == nodes[l].valueNames
      ensures forall l | l in nodes :: nodes[l].children <= h.nodes[l].children
      ensures Location(root, path) !in nodes ==> h.nodes[Location(root, path)] == EmptyNode
      ensures h.handles == handles && h.nextHandle == nextHandle && h.log == log
    {
      var l := Location(root, path);
      if l in nodes then this
      else if path == [] then this.(nodes := nodes[l := EmptyNode])
      else
        var h := EnsurePath(root, path[..|path| - 1]);
        ChildOfParent(l, l);
        h.AddChild(Parent(l), Last(l))
    }

    /** The hive with a new, empty key `c` below `p`. */
    function AddChild(p: Location, c: Name): (h: Hive)
      requires p in nodes
      ensures h.nodes.Keys == nodes.Keys + {Child(p, c)}
      ensures h.nodes[Child(p, c)] == EmptyNode
      ensures h.nodes[p] == nodes[p].(children := nodes[p].children + [c])
      ensures forall l | l in nodes && l != p && l != Child(p, c) :: h.nodes[l] == nodes[l]
      ensures h.handles == handles && h.nextHandle == nextHandle && h.log == log
    {
      var pn := nodes[p];
      this.(nodes := nodes[Child(p, c) := EmptyNode][p := pn.(children := pn.children + [c])])
    }

    /** RegCreateKeyEx: a new handle to the key, created with its missing
        ancestors when absent. */
    function CreateKeyEx(parent: HKey, sub: Ptr<CString>, sam: AccessRights): (r: CreateResult)
      ensures r.status == Status.Success <==> sub.Ptr? && Resolves(parent) && Where(parent) in nodes
      ensures r.status == Status.Success ==>
                && r.key == Handle(nextHandle) && r.hive.Resolves(r.key) && r.hive.Where(r.key) == Below(parent, sub)
                && Below(parent, sub) in r.hive.nodes
                && (r.disposition == CreatedNewKey <==> Below(parent, sub) !in nodes)
                && r.hive.handles == handles[nextHandle := Below(parent, sub)] && r.hive.nextHandle == nextHandle + 1
                && nodes.Keys <= r.hive.nodes.Keys
                && (forall l | l in nodes :: && r.hive.nodes[l].values == nodes[l].values
                                             && r.hive.nodes[l].valueNames == nodes[l].valueNames
                                             && nodes[l].children <= r.hive.nodes[l].children)
                && (Below(parent, sub) !in nodes ==> r.hive.nodes[Below(parent, sub)] == EmptyNode)
      ensures r.status != Status.Success ==> r.key == NullKey && r.hive == Record(CreateKeyCall(parent, sub, sam))
      ensures r.hive.log == log + [CreateKeyCall(parent, sub, sam)]
    {
      var h := Record(CreateKeyCall(parent, sub, sam));
      if sub.Null? then CreateResult(Status.InvalidParameter, NullKey, OpenedExistingKey, h)
      else if !Resolves(parent) then CreateResult(Status.InvalidHandle, NullKey, OpenedExistingKey, h)
      else if Where(parent) !in nodes then CreateResult(Status.KeyDeleted, NullKey, OpenedExistingKey, h)
      else
        var l := Below(parent, sub);
        var disposition := if l in nodes then OpenedExistingKey else CreatedNewKey;
        var (k, h') := h.EnsurePath(l.root, l.path).Alloc(l);
        CreateResult(Status.Success, k, disposition, h')
    }

    /** RegCloseKey: releases a handle; closing a predefined root does nothing. */
    function CloseKey(k: HKey): (r: CallResult)
      ensures r.status == Status.Success <==> Resolves(k)
      ensures r.hive.nodes == nodes && r.hive.nextHandle == nextHandle
      ensures r.hive.handles == if k.Handle? then handles - {k.id} else handles
      ensures r.hive.log == log + [CloseKeyCall(k)]
    {
      var h := Record(CloseKeyCall(k));
      match k
      case NullKey => CallResult(Status.InvalidHandle, h)
      case Root(_) => CallResult(Status.Success, h)
      case Handle(id) =>
        if id in handles then CallResult(Status.Success, h.(handles := handles - {id}))
        else CallResult(Status.InvalidHandle, h)
    }

    /** The hive without the key at `l`, which is dropped from its parent's children. */
    function Unlink(l: Location): (h: Hive)
      requires l in nodes && l.path != []
      ensures h.nodes.Keys == nodes.Keys - {l}
      ensures h.handles == handles && h.nextHandle == nextHandle && h.log == log
    {
      var p := Parent(l);
      if p in nodes then
        var pn := nodes[p];
        this.(nodes := (nodes - {l})[p := pn.(children := Remove(pn.children, Last(l)))])
      else
        this.(nodes := nodes - {l})
    }

    /** RegDeleteKeyEx: deletes a key that has no sub-keys. The view
        selector `sam` has no effect in this model. */
    function DeleteKeyEx(parent: HKey, sub: Ptr<CString>, sam: AccessRights): (r: CallResult)
      ensures r.status == Status.Success <==>
                && sub.Ptr? && Resolves(parent) && Below(parent, sub) in nodes
                && Below(parent, sub).path != [] && nodes[Below(parent, sub)].children == []
      ensures r.status == Status.Success ==> r.hive.nodes.Keys == nodes.Keys - {Below(parent, sub)}
      ensures r.status != Status.Success ==> r.hive == Record(DeleteKeyCall(parent, sub, sam))
      ensures r.hive.handles == handles && r.hive.log == log + [DeleteKeyCall(parent, sub, sam)]
    {
      var h := Record(DeleteKeyCall(parent, sub, sam));
      if sub.Null? then CallResult(Status.InvalidParameter, h)
      else if !Resolves(parent) then CallResult(Status.InvalidHandle, h)
      else
        var l := Below(parent, sub);
        if l !in nodes then CallResult(Status.FileNotFound, h)
        else if l.path == [] || nodes[l].children != [] then CallResult(Status.AccessDenied, h)
        else CallResult(Status.Success, h.Unlink(l))
    }

    /** RegFlushKey: only the handle is checked; persistence is not modelled. */
    function FlushKey(k: HKey): (r: CallResult)
      ensures r.status == Status.Success <==> Resolves(k)
      ensures r.hive == Record(FlushCall(k))
    {
      CallResult(if Resolves(k) then Status.Success else Status.InvalidHandle, Record(FlushCall(k)))
    }

    /** RegNotifyChangeKeyValue, synchronous: arms a wait on the key. It
        fails at once on a bad handle or on a key deleted under the handle.
        The wait itself is modelled by the notification worker. */
    function NotifyChangeKeyValue(k: HKey, watchSubtree: bool, events: NotifyEvents): (r: CallResult)
      ensures r.status == Status.Success <==> Resolves(k) && Where(k) in nodes
      ensures r.status != Status.Success ==> r.status == Status.InvalidHandle || r.status == Status.KeyDeleted
      ensures r.hive == Record(NotifyCall(k, watchSubtree, events))
    {
      CallResult(KeyStatus(k), Record(NotifyCall(k, watchSubtree, events)))
    }

    // -------------------------------------------------------------------------
    // Values

    /** The status a value operation on `k` fails with before it looks at
        the value: a bad handle, or a key deleted under the handle. */
    function KeyStatus(k: HKey): Status
    {
      if !Resolves(k) then Status.InvalidHandle
      else if Where(k) !in nodes then Status.KeyDeleted
      else Status.Success
    }

    /** The value `name` of the key `k` refers to, when there is one. */
    predicate HasValue(k: HKey, name: Ptr<CString>)
    {
      KeyStatus(k) == Status.Success && ValueName(name) in nodes[Where(k)].values
    }

    function ValueOf(k: HKey, name: Ptr<CString>): Entry
      requires HasValue(k, name)
    {
      nodes[Where(k)].values[ValueName(name)]
    }

    /** RegSetValueEx: stores the value, replacing one of the same name. */
    function SetValueEx(k: HKey, name: Ptr<CString>, kind: DataType, data: seq<byte>): (r: CallResult)
      ensures r.status == Status.Success <==> KeyStatus(k) == Status.Success
      ensures r.status == Status.Success ==> r.hive.HasValue(k, name) && r.hive.ValueOf(k, name) == Entry(kind, data)
      ensures r.status != Status.Success ==> r.hive == Record(SetValueCall(k, name, kind, data))
      ensures r.hive.nodes.Keys == nodes.Keys
      ensures r.status == Status.Success ==>
                var l, x := Where(k), ValueName(name);
                && r.hive.nodes[l].values == nodes[l].values[x := Entry(kind, data)]
                && r.hive.nodes[l].valueNames == (if x in nodes[l].values then nodes[l].valueNames else nodes[l].valueNames + [x])
                && r.hive.nodes[l].children == nodes[l].children
                && (forall m | m in nodes && m != l :: r.hive.nodes[m] == nodes[m])
      ensures r.hive.handles == handles && r.hive.log == log + [SetValueCall(k, name, kind, data)]
    {
      var h := Record(SetValueCall(k, name, kind, data));
      var s := KeyStatus(k);
      if s != Status.Success then CallResult(s, h)
      else
        var l := Where(k);
        var n := nodes[l];
        var x := ValueName(name);
        var names := if x in n.values then n.valueNames else n.valueNames + [x];
        CallResult(Status.Success, h.(nodes := nodes[l := n.(valueNames := names, values := n.values[x := Entry(kind, data)])]))
    }

    /** RegDeleteValue. */
    function DeleteValue(k: HKey, name: Ptr<CString>): (r: CallResult)
      ensures r.status == Status.Success <==> HasValue(k, name)
      ensures r.status == Status.Success ==> !r.hive.HasValue(k, name)
      ensures r.status != Status.Success ==> r.hive == Record(DeleteValueCall(k, name))
      ensures r.hive.nodes.Keys == nodes.Keys
      ensures r.hive.handles == handles && r.hive.log == log + [DeleteValueCall(k, name)]
    {
      var h := Record(DeleteValueCall(k, name));
      var s := KeyStatus(k);
      if s != Status.Success then CallResult(s, h)
      else
        var l := Where(k);
        var n := nodes[l];
        var x := ValueName(name);
        if x !in n.values then CallResult(Status.FileNotFound, h)
        else CallResult(Status.Success, h.(nodes := nodes[l := n.(valueNames := Remove(n.valueNames, x), values := n.values - {x})]))
    }

    /** RegGetValue: reads a value through a buffer of `buffer` bytes, or
        only reports its type and size when no buffer is given. */
    function GetValue(k: HKey, name: Ptr<CString>, restrict: Restrict, buffer: Ptr<nat>): (r: GetResult)
      ensures r.hive == Record(GetValueCall(k, name, restrict, buffer))
      ensures KeyStatus(k) != Status.Success ==> r.status == KeyStatus(k)
      ensures KeyStatus(k) == Status.Success && !HasValue(k, name) ==> r.status == Status.FileNotFound
      ensures HasValue(k, name) && r.status != Status.Success ==>
                var e := ValueOf(k, name);
                r.status == (if !restrict.Accepts(e.kind) then Status.UnsupportedType
                             else if restrict.FixedSize() != 0 && |e.data| != restrict.FixedSize() then Status.DatatypeMismatch
                             else Status.MoreData)
      ensures HasValue(k, name) ==>
                var e := ValueOf(k, name);
                && (r.status == Status.Success <==>
                      restrict.Accepts(e.kind) && (restrict.FixedSize() == 0 || |e.data| == restrict.FixedSize())
                      && (buffer.Null? || |Payload(e)| <= buffer.target))
                && (r.status == Status.Success ==>
                      r.kind == e.kind && r.size == |Payload(e)| && r.data == if buffer.Null? then [] else Payload(e))
    {
      var h := Record(GetValueCall(k, name, restrict, buffer));
      var s := KeyStatus(k);
      if s != Status.Success then GetResult(s, DataType.None, 0, [], h)
      else if ValueName(name) !in nodes[Where(k)].values then GetResult(Status.FileNotFound, DataType.None, 0, [], h)
      else
        var e := nodes[Where(k)].values[ValueName(name)];
        var p := Payload(e);
        if !restrict.Accepts(e.kind) then GetResult(Status.UnsupportedType, e.kind, 0, [], h)
        else if restrict.FixedSize() != 0 && |e.data| != restrict.FixedSize() then GetResult(Status.DatatypeMismatch, e.kind, 0, [], h)
        else if buffer.Null? then GetResult(Status.Success, e.kind, |p|, [], h)
        else if |p| > buffer.target then GetResult(Status.MoreData, e.kind, |p|, [], h)
        else GetResult(Status.Success, e.kind, |p|, p, h)
    }

    // -------------------------------------------------------------------------
    // Enumeration

    /** RegQueryInfoKey: the key's counts and maximum lengths; zeros on failure. */
    function QueryInfoKey(k: HKey): (r: InfoResult)
      ensures r.hive == Record(QueryInfoCall(k))
      ensures r.status == KeyStatus(k)
      ensures r.status == Status.Success ==>
                var n := nodes[Where(k)];
                && r.subKeys == |n.children| && r.values == |n.valueNames|
                && (forall i | 0 <= i < |n.children| :: |n.children[i]| <= r.maxSubKeyLen)
                && (forall i | 0 <= i < |n.valueNames| :: |n.valueNames[i]| <= r.maxValueNameLen)
                && (forall i | 0 <= i < |n.valueNames| && n.valueNames[i] in n.values ::
                      |n.values[n.valueNames[i]].data| <= r.maxValueLen)
    {
      var h := Record(QueryInfoCall(k));
      var s := KeyStatus(k);
      if s != Status.Success then InfoResult(s, 0, 0, 0, 0, 0, h)
      else
        var n := nodes[Where(k)];
        InfoResult(Status.Success, |n.children|, MaxLen(n.children), |n.valueNames|,
                   MaxLen(n.valueNames), MaxData(n.valueNames, n.values), h)
    }

    /** RegEnumValue without a data buffer: the name, type and data size of the
        value at `index`, with room for `nameCapacity` characters including
        the terminator. */
    function EnumValue(k: HKey, index: nat, nameCapacity: nat): (r: EnumValueResult)
      ensures r.hive == Record(EnumValueCall(k, index, nameCapacity))
      ensures KeyStatus(k) == Status.Success && index < |nodes[Where(k)].valueNames| ==>
                var x := nodes[Where(k)].valueNames[index];
                (r.status == Status.Success <==> |x| < nameCapacity && x in nodes[Where(k)].values)
                && (r.status == Status.Success ==> r.name == x && r.kind == nodes[Where(k)].values[x].kind
                                                   && r.size == |nodes[Where(k)].values[x].data|)
      ensures KeyStatus(k) == Status.Success && index >= |nodes[Where(k)].valueNames| ==> r.status == Status.NoMoreItems
      ensures KeyStatus(k) != Status.Success ==> r.status == KeyStatus(k)
    {
      var h := Record(EnumValueCall(k, index, nameCapacity));
      var s := KeyStatus(k);
      if s != Status.Success then EnumValueResult(s, [], DataType.None, 0, h)
      else
        var n := nodes[Where(k)];
        if index >= |n.valueNames| then EnumValueResult(Status.NoMoreItems, [], DataType.None, 0, h)
        else
          var x := n.valueNames[index];
          if x !in n.values then EnumValueResult(Status.FileNotFound, [], DataType.None, 0, h)
          else if |x| >= nameCapacity then EnumValueResult(Status.MoreData, [], DataType.None, 0, h)
          else EnumValueResult(Status.Success, x, n.values[x].kind, |n.values[x].data|, h)
    }

    /** RegEnumKeyEx: the name of the child key at `index`. */
    function EnumKey(k: HKey, index: nat, nameCapacity: nat): (r: EnumKeyResult)
      ensures r.hive == Record(EnumKeyCall(k, index, nameCapacity))
      ensures KeyStatus(k) == Status.Success && index < |nodes[Where(k)].children| ==>
                var x := nodes[Where(k)].children[index];
                (r.status == Status.Success <==> |x| < nameCapacity)
                && (r.status == Status.Success ==> r.name == x)
      ensures KeyStatus(k) == Status.Success && index >= |nodes[Where(k)].children| ==> r.status == Status.NoMoreItems
      ensures KeyStatus(k) != Status.Success ==> r.status == KeyStatus(k)
    {
      var h := Record(EnumKeyCall(k, index, nameCapacity));
      var s := KeyStatus(k);
      if s != Status.Success then EnumKeyResult(s, [], h)
      else
        var n := nodes[Where(k)];
        if index >= |n.children| then EnumKeyResult(Status.NoMoreItems, [], h)
        else
          var x := n.children[index];
          if |x| >= nameCapacity then EnumKeyResult(Status.MoreData, [], h)
          else EnumKeyResult(Status.Success, x, h)
    }
  }

  // ---------------------------------------------------------------------------
  // The operations that change keys or values keep the hive valid

  /** The parent of a child is the key it was added to. */
  lemma ChildOfParent(m: Location, p: Location)
    ensures m.path != [] ==> Child(Parent(m), Last(m)) == m
    ensures forall c: Name :: Parent(Child(p, c)) == p && Last(Child(p, c)) == c
  {
    forall c: Name ensures Parent(Child(p, c)) == p {
      assert (p.path + [c])[..|p.path|] == p.path;
    }
  }

  lemma AddChildValid(h: Hive, p: Location, c: Name)
    requires h.Valid() && p in h.nodes && Child(p, c) !in h.nodes
    ensures h.AddChild(p, c).Valid()
  {
    var r := h.AddChild(p, c);
    ChildOfParent(Child(p, c), p);
    assert NodesWellFormed(r.nodes) by {
      assert c !in h.nodes[p].children;
      assert WellFormedNode(r.nodes[p]);
    }
    AddChildLinks(h, p, c);
    AddChildPresent(h, p, c);
  }

  /** After `AddChild` every key but a root is still listed by its parent. */
  lemma AddChildLinks(h: Hive, p: Location, c: Name)
    requires h.Valid() && p in h.nodes && Child(p, c) !in h.nodes
    ensures ParentsLink(h.AddChild(p, c).nodes)
  {
    var l := Child(p, c);
    var r := h.AddChild(p, c);
    ChildOfParent(l, p);
    forall m | m in r.nodes && m.path != []
      ensures Parent(m) in r.nodes && Last(m) in r.nodes[Parent(m)].children
    {
      if m != l {
        var q := Parent(m);
        assert q in h.nodes && Last(m) in h.nodes[q].children;
        if q == p {
          assert r.nodes[q].children == h.nodes[q].children + [c];
        } else {
          assert r.nodes[q] == h.nodes[q];
        }
      }
    }
  }

  /** After `AddChild` every listed child still exists. */
  lemma AddChildPresent(h: Hive, p: Location, c: Name)
    requires h.Valid() && p in h.nodes && Child(p, c) !in h.nodes
    ensures ChildrenPresent(h.AddChild(p, c).nodes)
  {
    var l := Child(p, c);
    var r := h.AddChild(p, c);
    assert p != l by { assert |l.path| == |p.path| + 1; }
    assert r.nodes[l] == EmptyNode;
    forall m, x | m in r.nodes && x in r.nodes[m].children
      ensures Child(m, x) in r.nodes
    {
      if m != p {
        assert m != l;
        assert x in h.nodes[m].children;
      } else if x != c {
        assert x in h.nodes[p].children;
      }
    }
  }

  /** The keys `EnsurePath(root, path)` adds are all prefixes of `path`. */
  lemma {:induction false} EnsurePathAdds(h: Hive, root: RootKey, path: seq<Name>, l: Location)
    requires l !in h.nodes && |l.path| > |path|
    ensures l !in h.EnsurePath(root, path).nodes
    decreases |path|
  {
    var k := Location(root, path);
    if k !in h.nodes && path != [] {
      EnsurePathAdds(h, root, path[..|path| - 1], l);
      ChildOfParent(k, k);
    }
  }

  lemma {:induction false} EnsurePathValid(h: Hive, root: RootKey, path: seq<Name>)
    requires h.Valid()
    ensures h.EnsurePath(root, path).Valid()
    decreases |path|
  {
    var l := Location(root, path);
    if l !in h.nodes && path != [] {
      ChildOfParent(l, l);
      var prefix := path[..|path| - 1];
      assert Parent(l) == Location(root, prefix);
      EnsurePathValid(h, root, prefix);
      EnsurePathAdds(h, root, prefix, l);
      AddChildValid(h.EnsurePath(root, prefix), Parent(l), Last(l));
    }
  }

  lemma UnlinkValid(h: Hive, l: Location)
    requires h.Valid() && l in h.nodes && l.path != [] && h.nodes[l].children == []
    ensures h.Unlink(l).Valid()
  {
    var p := Parent(l);
    var pn := h.nodes[p];
    var r := h.Unlink(l);
    assert r.nodes == (h.nodes - {l})[p := pn.(children := Remove(pn.children, Last(l)))];
    assert RootsPresent(r.nodes);
    assert NodesWellFormed(r.nodes) by {
      RemoveDistinct(pn.children, Last(l));
    }
    UnlinkLinks(h, l);
    UnlinkPresent(h, l);
  }

  /** After `Unlink` every key but a root is still listed by its parent. */
  lemma UnlinkLinks(h: Hive, l: Location)
    requires h.Valid() && l in h.nodes && l.path != [] && h.nodes[l].children == []
    ensures ParentsLink(h.Unlink(l).nodes)
  {
    var p := Parent(l);
    var pn := h.nodes[p];
    var r := h.Unlink(l);
    assert r.nodes == (h.nodes - {l})[p := pn.(children := Remove(pn.children, Last(l)))];
    forall m | m in r.nodes && m.path != []
      ensures Parent(m) in r.nodes && Last(m) in r.nodes[Parent(m)].children
    {
      ChildOfParent(m, p);
      ChildOfParent(l, p);
      var q := Parent(m);
      assert Last(m) in h.nodes[q].children;
      if q == p {
        assert Last(m) != Last(l);
        assert r.nodes[q].children == Remove(pn.children, Last(l));
      } else {
        assert q != l by { assert h.nodes[l].children == []; }
        assert r.nodes[q] == h.nodes[q];
      }
    }
  }

  /** After `Unlink` every listed child still exists. */
  lemma UnlinkPresent(h: Hive, l: Location)
    requires h.Valid() && l in h.nodes && l.path != [] && h.nodes[l].children == []
    ensures ChildrenPresent(h.Unlink(l).nodes)
  {
    var p := Parent(l);
    var pn := h.nodes[p];
    var r := h.Unlink(l);
    assert r.nodes == (h.nodes - {l})[p := pn.(children := Remove(pn.children, Last(l)))];
    forall m, x | m in r.nodes && x in r.nodes[m].children
      ensures Child(m, x) in r.nodes
    {
      ChildOfParent(l, m);
      if m == p {
        assert x in pn.children && x != Last(l);
      } else {
        assert x in h.nodes[m].children;
      }
      assert Child(m, x) in h.nodes;
    }
  }

  lemma CreateKeyExValid(h: Hive, parent: HKey, sub: Ptr<CString>, sam: AccessRights)
    ensures h.Valid() ==> h.CreateKeyEx(parent, sub, sam).hive.Valid()
  {
    if h.Valid() {
      if sub.Ptr? && h.Resolves(parent) && h.Where(parent) in h.nodes {
        var l := h.Below(parent, sub);
        var g := h.Record(CreateKeyCall(parent, sub, sam));
        EnsurePathValid(g, l.root, l.path);
      }
    }
  }

  lemma DeleteKeyExValid(h: Hive, parent: HKey, sub: Ptr<CString>, sam: AccessRights)
    ensures h.Valid() ==> h.DeleteKeyEx(parent, sub, sam).hive.Valid()
  {
    if h.Valid() {
      if sub.Ptr? && h.Resolves(parent) {
        var l := h.Below(parent, sub);
        if l in h.nodes && l.path != [] && h.nodes[l].children == [] {
          UnlinkValid(h.Record(DeleteKeyCall(parent, sub, sam)), l);
        }
      }
    }
  }

  /** Replacing a key's node by a well-formed node with the same children
      keeps the hive valid. */
  lemma ReplaceNodeValid(h: Hive, r: Hive, l: Location, n: Node)
    requires h.Valid() && l in h.nodes && n.children == h.nodes[l].children && WellFormedNode(n)
    requires r.nodes == h.nodes[l := n] && r.handles == h.handles && r.nextHandle == h.nextHandle
    ensures r.Valid()
  {
    assert NodesWellFormed(r.nodes);
    assert ParentsLink(r.nodes) by {
      forall m | m in r.nodes && m.path != []
        ensures Parent(m) in r.nodes && Last(m) in r.nodes[Parent(m)].children
      {
        assert Last(m) in h.nodes[Parent(m)].children;
      }
    }
    assert ChildrenPresent(r.nodes) by {
      forall m, c | m in r.nodes && c in r.nodes[m].children
        ensures Child(m, c) in r.nodes
      {
        assert c in h.nodes[m].children;
      }
    }
  }

  lemma SetValueExValid(h: Hive, k: HKey, name: Ptr<CString>, kind: DataType, data: seq<byte>)
    ensures h.Valid() ==> h.SetValueEx(k, name, kind, data).hive.Valid()
  {
    if h.Valid() && h.KeyStatus(k) == Status.Success {
      var l := h.Where(k);
      var n := h.nodes[l];
      var x := ValueName(name);
      var names := if x in n.values then n.valueNames else n.valueNames + [x];
      var n' := n.(valueNames := names, values := n.values[x := Entry(kind, data)]);
      assert WellFormedNode(n');
      ReplaceNodeValid(h, h.SetValueEx(k, name, kind, data).hive, l, n');
    }
  }

  lemma DeleteValueValid(h: Hive, k: HKey, name: Ptr<CString>)
    ensures h.Valid() ==> h.DeleteValue(k, name).hive.Valid()
  {
    if h.Valid() && h.HasValue(k, name) {
      var l := h.Where(k);
      var n := h.nodes[l];
      var x := ValueName(name);
      var n' := n.(valueNames := Remove(n.valueNames, x), values := n.values - {x});
      RemoveDistinct(n.valueNames, x);
      assert WellFormedNode(n');
      ReplaceNodeValid(h, h.DeleteValue(k, name).hive, l, n');
    }
  }

  lemma OpenCloseValid(h: Hive, parent: HKey, sub: Ptr<CString>, sam: AccessRights, k: HKey)
    requires h.Valid()
    ensures h.OpenKeyEx(parent, sub, sam).hive.Valid()
    ensures h.CloseKey(k).hive.Valid()
  {
  }
}
