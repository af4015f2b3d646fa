/** The capability-flag rule shared by the three Characteristic classes:
    READ iff a read callback is bound, WRITE iff a write callback is bound,
    NOTIFY whenever READ is set; callback setters only ever add bits. */
module CapabilityFlags {
  import opened Gatt

  /** Flags that only the construction rule and the setters can produce:
      no bit outside READ|WRITE|NOTIFY, and READ always with NOTIFY. */
  ghost predicate WellFormed(flags: ChrFlags) {
    && flags <= {Read, Write, Notify}
    && (Read in flags ==> Notify in flags)
  }

  /** The flags a characteristic is constructed with: start from 0, OR in
      READ for a read callback and WRITE for a write callback, then NOTIFY
      if READ is set. */
  function InitialFlags(hasRead: bool, hasWrite: bool): (flags: ChrFlags)
    ensures Read in flags <==> hasRead
    ensures Write in flags <==> hasWrite
    ensures Notify in flags <==> hasRead
    ensures flags <= {Read, Write, Notify}
    ensures WellFormed(flags)
  {
    var f0: ChrFlags := if hasRead then {Read} else {};
    var f1 := if hasWrite then f0 + {Write} else f0;
    if Read in f1 then f1 + {Notify} else f1
  }

  /** set_read_callback: a bound callback adds READ|NOTIFY unless READ is
      already set; no bit is ever cleared and no other bit changes. */
  function WidenForRead(flags: ChrFlags, bound: bool): (widened: ChrFlags)
    ensures flags <= widened
    ensures widened - {Read, Notify} == flags - {Read, Notify}
    ensures bound ==> Read in widened
    ensures bound && Read !in flags ==> Notify in widened
    ensures !bound ==> widened == flags
    ensures WellFormed(flags) ==> WellFormed(widened)
  {
    if bound && Read !in flags then flags + {Read, Notify} else flags
  }

  /** set_write_callback: a bound callback adds WRITE; no bit is ever
      cleared and no other bit changes. */
  function WidenForWrite(flags: ChrFlags, bound: bool): (widened: ChrFlags)
    ensures flags <= widened
    ensures widened - {Write} == flags - {Write}
    ensures bound ==> Write in widened
    ensures !bound ==> widened == flags
    ensures WellFormed(flags) ==> WellFormed(widened)
  {
    if bound && Write !in flags then flags + {Write} else flags
  }

  /** On well-formed flags, binding a read callback always leaves both READ
      and NOTIFY set, whichever of them were set before. */
  lemma ReadBindingAdvertisesNotify(flags: ChrFlags)
    requires WellFormed(flags)
    ensures Read in WidenForRead(flags, true) && Notify in WidenForRead(flags, true)
  {
  }

  /** The widening law: binding a write callback on a read-only
      characteristic adds WRITE and keeps READ and NOTIFY; binding a read
      callback on a write-only one adds READ and NOTIFY and keeps WRITE. */
  lemma WideningLaw()
    ensures WidenForWrite(InitialFlags(true, false), true) == InitialFlags(true, true)
    ensures WidenForRead(InitialFlags(false, true), true) == InitialFlags(true, true)
  {
  }
}
