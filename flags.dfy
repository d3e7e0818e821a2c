/** The two bit-mask types of the registry wrapper: the access rights requested
    when a key is opened and the change events a notification watches for.
    Both are enum classes over a 32-bit `int` whose operators `|`, `&`, `^`
    and `~` apply the integer operation to the underlying values; a mask is
    modelled by its 32-bit pattern, and each operator is specified bit by bit
    as the set operation it performs on the positions of the set bits. */
module Flags {

  /** True when bit `i` of `b` is set. */
  predicate Bit(b: bv32, i: bv5)
  {
    (b >> i) & 1 == 1
  }

  datatype AccessRights = AccessRights(bits: bv32) {
    static const None             := AccessRights(0x00000)
    static const QueryValue       := AccessRights(0x00001)
    static const SetValue         := AccessRights(0x00002)
    static const CreateSubKey     := AccessRights(0x00004)
    static const EnumerateSubKeys := AccessRights(0x00008)
    static const Notify           := AccessRights(0x00010)
    static const CreateLink       := AccessRights(0x00020)
    static const WoW64Key64       := AccessRights(0x00100)
    static const WoW64Key32       := AccessRights(0x00200)
    static const Write            := AccessRights(0x20006)
    static const Read             := AccessRights(0x20019)
    static const AllAccess        := AccessRights(0xF003F)
    /** STANDARD_RIGHTS_READ and STANDARD_RIGHTS_WRITE, the bit that `Read`
        and `Write` carry besides the key-specific rights. */
    static const StandardRights   := AccessRights(0x20000)

    /** `operator |` */
    function Or(other: AccessRights): (r: AccessRights)
    {
      AccessRights(bits | other.bits)
    }

    /** `operator &` */
    function And(other: AccessRights): (r: AccessRights)
    {
      AccessRights(bits & other.bits)
    }

    /** `operator ^` */
    function Xor(other: AccessRights): (r: AccessRights)
    {
      AccessRights(bits ^ other.bits)
    }

    /** `operator ~` */
    function Not(): (r: AccessRights)
    {
      AccessRights(!bits)
    }

    /** Every right of `other` is also in this mask. */
    predicate Contains(other: AccessRights)
    {
      And(other) == other
    }
  }

  datatype NotifyEvents = NotifyEvents(bits: bv32) {
    static const ChangeName       := NotifyEvents(1)
    static const ChangeAttributes := NotifyEvents(2)
    static const ChangeLastSet    := NotifyEvents(4)
    static const ChangeSecurity   := NotifyEvents(8)
    static const All              := NotifyEvents(15)

    /** `operator |` */
    function Or(other: NotifyEvents): (r: NotifyEvents)
    {
      NotifyEvents(bits | other.bits)
    }

    /** `operator &` */
    function And(other: NotifyEvents): (r: NotifyEvents)
    {
      NotifyEvents(bits & other.bits)
    }

    /** `operator ^` */
    function Xor(other: NotifyEvents): (r: NotifyEvents)
    {
      NotifyEvents(bits ^ other.bits)
    }

    /** `operator ~` */
    function Not(): (r: NotifyEvents)
    {
      NotifyEvents(!bits)
    }

    /** The mask shares at least one event with `other`. */
    predicate Overlaps(other: NotifyEvents)
    {
      And(other).bits != 0
    }
  }

  // ---------------------------------------------------------------------------
  // Each operator acts bit by bit: union, intersection, symmetric difference
  // and complement of the sets of set bits

  lemma AccessBitwise(a: AccessRights, b: AccessRights, i: bv5)
    ensures Bit(a.Or(b).bits, i) == (Bit(a.bits, i) || Bit(b.bits, i))
    ensures Bit(a.And(b).bits, i) == (Bit(a.bits, i) && Bit(b.bits, i))
    ensures Bit(a.Xor(b).bits, i) == (Bit(a.bits, i) != Bit(b.bits, i))
    ensures Bit(a.Not().bits, i) == !Bit(a.bits, i)
  {
  }

  lemma NotifyBitwise(a: NotifyEvents, b: NotifyEvents, i: bv5)
    ensures Bit(a.Or(b).bits, i) == (Bit(a.bits, i) || Bit(b.bits, i))
    ensures Bit(a.And(b).bits, i) == (Bit(a.bits, i) && Bit(b.bits, i))
    ensures Bit(a.Xor(b).bits, i) == (Bit(a.bits, i) != Bit(b.bits, i))
    ensures Bit(a.Not().bits, i) == !Bit(a.bits, i)
  {
  }

  // ---------------------------------------------------------------------------
  // Algebraic laws of the operators

  lemma AccessOrCommutes(a: AccessRights, b: AccessRights)
    ensures a.Or(b) == b.Or(a)
  {
  }

  lemma AccessOrAssociates(a: AccessRights, b: AccessRights, c: AccessRights)
    ensures a.Or(b).Or(c) == a.Or(b.Or(c))
  {
  }

  lemma AccessAndIdempotent(a: AccessRights)
    ensures a.And(a) == a
  {
  }

  lemma AccessXorSelfIsEmpty(a: AccessRights)
    ensures a.Xor(a) == AccessRights.None
  {
  }

  lemma AccessNotInvolutive(a: AccessRights)
    ensures a.Not().Not() == a
  {
  }

  lemma NotifyOrCommutes(a: NotifyEvents, b: NotifyEvents)
    ensures a.Or(b) == b.Or(a)
  {
  }

  lemma NotifyOrAssociates(a: NotifyEvents, b: NotifyEvents, c: NotifyEvents)
    ensures a.Or(b).Or(c) == a.Or(b.Or(c))
  {
  }

  lemma NotifyAndIdempotent(a: NotifyEvents)
    ensures a.And(a) == a
  {
  }

  lemma NotifyXorSelfIsEmpty(a: NotifyEvents)
    ensures a.Xor(a) == NotifyEvents(0)
  {
  }

  lemma NotifyNotInvolutive(a: NotifyEvents)
    ensures a.Not().Not() == a
  {
  }

  // ---------------------------------------------------------------------------
  // The composite constants

  lemma NotifyAllIsUnionOfChanges()
    ensures NotifyEvents.All == NotifyEvents.ChangeName.Or(NotifyEvents.ChangeAttributes)
                                  .Or(NotifyEvents.ChangeLastSet).Or(NotifyEvents.ChangeSecurity)
  {
  }

  lemma ReadAndWriteComposition()
    ensures AccessRights.Read.Contains(AccessRights.QueryValue)
    ensures AccessRights.Read.Contains(AccessRights.EnumerateSubKeys)
    ensures AccessRights.Read.Contains(AccessRights.Notify)
    ensures AccessRights.Read == AccessRights.StandardRights.Or(AccessRights.QueryValue)
                                   .Or(AccessRights.EnumerateSubKeys).Or(AccessRights.Notify)
    ensures AccessRights.Write.Contains(AccessRights.SetValue)
    ensures AccessRights.Write.Contains(AccessRights.CreateSubKey)
    ensures AccessRights.Write == AccessRights.StandardRights.Or(AccessRights.SetValue)
                                    .Or(AccessRights.CreateSubKey)
    ensures AccessRights.AllAccess.Contains(AccessRights.Read)
    ensures AccessRights.AllAccess.Contains(AccessRights.Write)
  {
  }
}
