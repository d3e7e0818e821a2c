/** The value types shared by the registry wrapper: machine integers, C
    strings and pointers, status codes, the value-type and predefined-key
    enumerations, the root-selector table and the little-endian layout of the
    integers a value holds. */
module RegTypes {

  newtype byte = x: int | 0 <= x < 0x100
  newtype uint32 = x: int | 0 <= x < 0x1_0000_0000
  newtype uint64 = x: int | 0 <= x < 0x1_0000_0000_0000_0000

  /** A NUL-terminated TCHAR string, seen as the characters before its
      terminator. A TCHAR is taken to be one byte wide. */
  type CString = s: seq<byte> | 0 !in s

  /** A C pointer: `Null`, or a pointer to `target`. For an out-pointer,
      `target` is the current contents of the pointee. */
  datatype Ptr<T> = Null | Ptr(target: T)

  /** An `LSTATUS`: a Win32 error code, passed on verbatim. */
  newtype Status = int {
    static const Success:          Status := 0     // ERROR_SUCCESS
    static const FileNotFound:     Status := 2     // ERROR_FILE_NOT_FOUND
    static const AccessDenied:     Status := 5     // ERROR_ACCESS_DENIED
    static const InvalidHandle:    Status := 6     // ERROR_INVALID_HANDLE
    static const InvalidParameter: Status := 87    // ERROR_INVALID_PARAMETER
    static const MoreData:         Status := 234   // ERROR_MORE_DATA
    static const NoMoreItems:      Status := 259   // ERROR_NO_MORE_ITEMS
    static const KeyDeleted:       Status := 1018  // ERROR_KEY_DELETED
    static const DatatypeMismatch: Status := 1629  // ERROR_DATATYPE_MISMATCH
    static const UnsupportedType:  Status := 1630  // ERROR_UNSUPPORTED_TYPE
  }

  /** The type tag of a registry value: its `REG_*` code. The wrapper
      casts codes to `DataType` and back without checking them, so every
      32-bit code is a tag; the named ones are the enumerators. */
  newtype DataType = x: int | 0 <= x < 0x1_0000_0000 {
    static const None:                     DataType := 0
    static const String:                   DataType := 1
    static const ExpandString:             DataType := 2
    static const Binary:                   DataType := 3
    static const DWord:                    DataType := 4
    static const DWordBigEndian:           DataType := 5
    static const Link:                     DataType := 6
    static const MultiString:              DataType := 7
    static const ResourceList:             DataType := 8
    static const FullResourceDescriptor:   DataType := 9
    static const ResourceRequirementsList: DataType := 10
    static const QWord:                    DataType := 11

    /** The native code, as `(DWORD)dataType` passes it. */
    function Code(): nat
    {
      this as nat
    }

    /** The types whose data is text that the store NUL-terminates on reading. */
    predicate IsText()
    {
      this == String || this == ExpandString || this == MultiString
    }
  }

  /** Casting a code to `DataType` and back loses nothing, for every 32-bit
      code and not only the named ones. */
  lemma DataTypeCodeRoundTrip(code: uint32, t: DataType)
    ensures (code as int as DataType).Code() == code as nat
    ensures (t.Code() as uint32) as int as DataType == t
    ensures t.IsText() <==> t.Code() in {1, 2, 7}
  {
  }

  /** The selector of a top-level registry entry. */
  datatype PredefinedKey =
    | ClassesRoot | CurrentUser | LocalMachine | Users | PerformanceData
    | CurrentConfig | PerformanceText | PerformanceNlsText | DynData | CurrentUserLocalSettings
  {
    /** The enumerator's position, which is `(int)mainKey`. */
    function Index(): nat
    {
      match this
      case ClassesRoot => 0
      case CurrentUser => 1
      case LocalMachine => 2
      case Users => 3
      case PerformanceData => 4
      case CurrentConfig => 5
      case PerformanceText => 6
      case PerformanceNlsText => 7
      case DynData => 8
      case CurrentUserLocalSettings => 9
    }
  }

  /** The predefined `HKEY` values of the native store. */
  datatype RootKey =
    | HKeyClassesRoot | HKeyCurrentUser | HKeyLocalMachine | HKeyUsers | HKeyPerformanceData
    | HKeyCurrentConfig | HKeyDynData | HKeyCurrentUserLocalSettings | HKeyPerformanceText
    | HKeyPerformanceNlsText

  /** `m_predefinedKeys`, in the order of its initialiser. */
  const PredefinedKeys: seq<RootKey> := [
    HKeyClassesRoot,
    HKeyCurrentUser,
    HKeyLocalMachine,
    HKeyUsers,
    HKeyPerformanceData,
    HKeyCurrentConfig,
    HKeyDynData,
    HKeyCurrentUserLocalSettings,
    HKeyPerformanceText,
    HKeyPerformanceNlsText
  ]

  /** `m_predefinedKeys[(int)mainKey]`: the root a selector opens. */
  function RootOf(k: PredefinedKey): RootKey
  {
    PredefinedKeys[k.Index()]
  }

  /** The root whose name the selector bears. */
  function NamedRoot(k: PredefinedKey): RootKey
  {
    match k
    case ClassesRoot => HKeyClassesRoot
    case CurrentUser => HKeyCurrentUser
    case LocalMachine => HKeyLocalMachine
    case Users => HKeyUsers
    case PerformanceData => HKeyPerformanceData
    case CurrentConfig => HKeyCurrentConfig
    case PerformanceText => HKeyPerformanceText
    case PerformanceNlsText => HKeyPerformanceNlsText
    case DynData => HKeyDynData
    case CurrentUserLocalSettings => HKeyCurrentUserLocalSettings
  }

  /** The table follows the enumeration for the first six selectors only;
      from index 6 on each selector opens a different root than its name. */
  lemma RootTableAgreesBelowSix(k: PredefinedKey)
    ensures |PredefinedKeys| == 10
    ensures RootOf(k) == NamedRoot(k) <==> k.Index() < 6
  {
  }

  lemma RootTableFromSix()
    ensures RootOf(PerformanceText) == HKeyDynData
    ensures RootOf(PerformanceNlsText) == HKeyCurrentUserLocalSettings
    ensures RootOf(DynData) == HKeyPerformanceText
    ensures RootOf(CurrentUserLocalSettings) == HKeyPerformanceNlsText
  {
  }

  /** No two selectors open the same root, and every root has a selector. */
  lemma RootOfIsBijective(k1: PredefinedKey, k2: PredefinedKey, r: RootKey)
    ensures RootOf(k1) == RootOf(k2) ==> k1 == k2
    ensures exists k: PredefinedKey :: RootOf(k) == r
  {
    match r
    case HKeyClassesRoot => assert RootOf(ClassesRoot) == r;
    case HKeyCurrentUser => assert RootOf(CurrentUser) == r;
    case HKeyLocalMachine => assert RootOf(LocalMachine) == r;
    case HKeyUsers => assert RootOf(Users) == r;
    case HKeyPerformanceData => assert RootOf(PerformanceData) == r;
    case HKeyCurrentConfig => assert RootOf(CurrentConfig) == r;
    case HKeyDynData => assert RootOf(PerformanceText) == r;
    case HKeyCurrentUserLocalSettings => assert RootOf(PerformanceNlsText) == r;
    case HKeyPerformanceText => assert RootOf(DynData) == r;
    case HKeyPerformanceNlsText => assert RootOf(CurrentUserLocalSettings) == r;
  }

  // ---------------------------------------------------------------------------
  // The bytes of a DWORD or QWORD as it lies in memory (little-endian)

  function Pow256(n: nat): (p: nat)
    ensures p >= 1
  {
    if n == 0 then 1 else 256 * Pow256(n - 1)
  }

  /** The `n` low-order bytes of `v`, least significant first. */
  function LittleEndian(v: nat, n: nat): (b: seq<byte>)
    ensures |b| == n
  {
    if n == 0 then [] else [(v % 256) as byte] + LittleEndian(v / 256, n - 1)
  }

  /** The number whose little-endian bytes are `b`. */
  function FromLittleEndian(b: seq<byte>): (v: nat)
    ensures v < Pow256(|b|)
  {
    if b == [] then 0 else b[0] as nat + 256 * FromLittleEndian(b[1..])
  }

  lemma {:induction false} LittleEndianRoundTrip(v: nat, n: nat)
    requires v < Pow256(n)
    ensures FromLittleEndian(LittleEndian(v, n)) == v
  {
    if n > 0 {
      var b := LittleEndian(v, n);
      assert b[1..] == LittleEndian(v / 256, n - 1);
      LittleEndianRoundTrip(v / 256, n - 1);
    }
  }

  lemma {:induction false} FromLittleEndianRoundTrip(b: seq<byte>)
    ensures LittleEndian(FromLittleEndian(b), |b|) == b
  {
    if b != [] {
      var v := FromLittleEndian(b);
      var rest := FromLittleEndian(b[1..]);
      assert v % 256 == b[0] as nat && v / 256 == rest;
      FromLittleEndianRoundTrip(b[1..]);
    }
  }

  /** The four bytes written by `(const BYTE*)&value, sizeof(DWORD)`. */
  function DWordBytes(v: uint32): seq<byte>
  {
    LittleEndian(v as nat, 4)
  }

  /** The DWORD whose four bytes are `b`. */
  function DWordOf(b: seq<byte>): uint32
    requires |b| == 4
  {
    FromLittleEndian(b) as uint32
  }

  /** The eight bytes written by `(const BYTE*)&value, sizeof(QWORD)`. */
  function QWordBytes(v: uint64): seq<byte>
  {
    LittleEndian(v as nat, 8)
  }

  /** The QWORD whose eight bytes are `b`. */
  function QWordOf(b: seq<byte>): uint64
    requires |b| == 8
  {
    assert Pow256(8) == 0x1_0000_0000_0000_0000;
    FromLittleEndian(b) as uint64
  }

  lemma DWordRoundTrip(v: uint32, b: seq<byte>)
    ensures |DWordBytes(v)| == 4 && DWordOf(DWordBytes(v)) == v
    ensures |b| == 4 ==> DWordBytes(DWordOf(b)) == b
  {
    assert Pow256(4) == 0x1_0000_0000;
    LittleEndianRoundTrip(v as nat, 4);
    FromLittleEndianRoundTrip(b);
  }

  lemma QWordRoundTrip(v: uint64, b: seq<byte>)
    ensures |QWordBytes(v)| == 8 && QWordOf(QWordBytes(v)) == v
    ensures |b| == 8 ==> QWordBytes(QWordOf(b)) == b
  {
    assert Pow256(8) == 0x1_0000_0000_0000_0000;
    LittleEndianRoundTrip(v as nat, 8);
    FromLittleEndianRoundTrip(b);
  }
}
