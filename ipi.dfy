/**
 * Inter-Processor Interrupts through the local APIC's Interrupt Command
 * Register (ICR), as used to boot the application cores.
 *
 * The ICR is a 64-bit register split over two 32-bit memory-mapped words
 * (low at offset 0x300, high at offset 0x310 from the APIC base). Its layout
 * is the one of section 10.6.1 of the Intel 64 and IA-32 Architectures
 * Software Developer's Manual, Volume 3A.
 */
module Ipi {
  import opened Wrappers

  // ---------------------------------------------------------------------
  // Register offsets and addresses
  // ---------------------------------------------------------------------

  /** Rust's u32, for offsets and addresses. */
  type u32 = x: int | 0 <= x < 0x1_0000_0000

  /** Rust's u8, held in a 64-bit vector as the register's fields are. */
  type U8 = b: bv64 | b <= 0xFF

  /** Offset of the high word of the Interrupt Command Register. */
  const ICR_HIGH: u32 := 0x310
  /** Offset of the low word of the Interrupt Command Register. */
  const ICR_LOW: u32 := 0x300
  /** Default base address of the APIC's memory-mapped registers. */
  const APIC_BASE: u32 := 0xfee0_0000

  predicate IsIcrRegister(reg: u32) {
    reg == ICR_LOW || reg == ICR_HIGH
  }

  /**
   * The address `APIC_BASE + reg` that `read_reg32` and `write_reg32` access.
   * The source adds two u32 values; None stands for a sum that does not fit
   * in 32 bits (an overflow panic in a checked build).
   */
  function RegisterAddress(reg: u32): (a: Option<u32>)
    ensures a.Some? <==> reg < 0x1_0000_0000 - APIC_BASE
    ensures a.Some? ==> a.value == APIC_BASE + reg && a.value >= APIC_BASE
  {
    if APIC_BASE + reg < 0x1_0000_0000 then Some(APIC_BASE + reg) else None
  }

  /** The two ICR words lie at 0xfee00300 and 0xfee00310, without overflow. */
  lemma IcrAddressesFit()
    ensures RegisterAddress(ICR_LOW) == Some(0xfee0_0300)
    ensures RegisterAddress(ICR_HIGH) == Some(0xfee0_0310)
  {
  }

  /**
   * An address identifies its register: the offset is the address's distance
   * from the APIC base, so distinct offsets are at distinct addresses.
   */
  lemma RegisterAddressInjective(r1: u32, r2: u32)
    requires RegisterAddress(r1).Some? && RegisterAddress(r2).Some?
    ensures RegisterAddress(r1).value - APIC_BASE == r1
    ensures r1 != r2 <==> RegisterAddress(r1) != RegisterAddress(r2)
  {
  }

  /** The address of one of the two ICR words. */
  function IcrAddress(reg: u32): (a: u32)
    requires IsIcrRegister(reg)
    ensures RegisterAddress(reg) == Some(a)
  {
    RegisterAddress(reg).value
  }

  // ---------------------------------------------------------------------
  // The values of the ICR's enumerated fields
  // ---------------------------------------------------------------------

  datatype IpiTriggerMode = EdgeTriggered | LevelTriggered {
    function Code(): U8 {
      match this
      case EdgeTriggered => 0
      case LevelTriggered => 1
    }
  }

  datatype IpiLevel = Deassert | Assert {
    function Code(): U8 {
      match this
      case Deassert => 0
      case Assert => 1
    }
  }

  datatype IpiDestinationMode = Physical | Logical {
    function Code(): U8 {
      match this
      case Physical => 0
      case Logical => 1
    }
  }

  datatype IpiDeliveryStatus = Idle | SendPending {
    function Code(): U8 {
      match this
      case Idle => 0
      case SendPending => 1
    }
  }

  datatype IpiTarget = Current | AllIncludingCurrent | AllExcludingCurrent {
    function Code(): U8 {
      match this
      case Current => 1
      case AllIncludingCurrent => 2
      case AllExcludingCurrent => 3
    }
  }

  datatype IpiDeliveryMode = Fixed | LowestPriority | Smi | Nmi | Init | Startup {
    function Code(): U8 {
      match this
      case Fixed => 0
      case LowestPriority => 1
      case Smi => 2
      case Nmi => 4
      case Init => 5
      case Startup => 6
    }
  }

  // ---------------------------------------------------------------------
  // The bitfield layout
  // ---------------------------------------------------------------------

  /** The fields of `InterruptCommand`, reserved ones included. */
  datatype Field =
    | Vector | DeliveryMode | DestinationMode | DeliveryStatus | Res1 | Level
    | TriggerMode | Res2 | DestinationTarget | Res3 | Destination

  /** The fields in declaration order; the bitfield macro packs them from bit 0 upwards. */
  const Declared: seq<Field> :=
    [Vector, DeliveryMode, DestinationMode, DeliveryStatus, Res1, Level,
     TriggerMode, Res2, DestinationTarget, Res3, Destination]

  /** The number of bits of each field, as declared with `#[bits(n)]`. */
  function Width(f: Field): nat {
    match f
    case Vector => 8
    case DeliveryMode => 3
    case DestinationMode => 1
    case DeliveryStatus => 1
    case Res1 => 1
    case Level => 1
    case TriggerMode => 1
    case Res2 => 2
    case DestinationTarget => 2
    case Res3 => 36
    case Destination => 8
  }

  /** The lowest bit of each field, as the ICR layout of the SDM places it. */
  function Offset(f: Field): nat {
    match f
    case Vector => 0
    case DeliveryMode => 8
    case DestinationMode => 11
    case DeliveryStatus => 12
    case Res1 => 13
    case Level => 14
    case TriggerMode => 15
    case Res2 => 16
    case DestinationTarget => 18
    case Res3 => 20
    case Destination => 56
  }

  function SumWidths(fs: seq<Field>): nat {
    if fs == [] then 0 else Width(fs[0]) + SumWidths(fs[1..])
  }

  /** Each field of `fs` starts right where the one before it ends. */
  ghost predicate Contiguous(fs: seq<Field>) {
    forall i :: 0 <= i < |fs| - 1 ==> Offset(fs[i]) + Width(fs[i]) == Offset(fs[i + 1])
  }

  /** Contiguous fields span, from the first one's offset, exactly the sum of their widths. */
  lemma {:induction false} ContiguousSpan(fs: seq<Field>)
    requires |fs| > 0 && Contiguous(fs)
    ensures Offset(fs[0]) + SumWidths(fs) == Offset(fs[|fs| - 1]) + Width(fs[|fs| - 1])
  {
    if |fs| > 1 {
      assert Contiguous(fs[1..]) by {
        forall i | 0 <= i < |fs[1..]| - 1
          ensures Offset(fs[1..][i]) + Width(fs[1..][i]) == Offset(fs[1..][i + 1])
        {
          assert fs[1..][i] == fs[i + 1] && fs[1..][i + 1] == fs[i + 2];
        }
      }
      ContiguousSpan(fs[1..]);
      assert Offset(fs[0]) + Width(fs[0]) == Offset(fs[1]);
    }
  }

  /** Every field is declared exactly once. */
  lemma EachFieldDeclaredOnce()
    ensures |Declared| == 11
    ensures forall i, j :: 0 <= i < j < |Declared| ==> Declared[i] != Declared[j]
    ensures forall f :: f in Declared
  {
    forall f ensures f in Declared {
      match f
      case Vector => assert Declared[0] == f;
      case DeliveryMode => assert Declared[1] == f;
      case DestinationMode => assert Declared[2] == f;
      case DeliveryStatus => assert Declared[3] == f;
      case Res1 => assert Declared[4] == f;
      case Level => assert Declared[5] == f;
      case TriggerMode => assert Declared[6] == f;
      case Res2 => assert Declared[7] == f;
      case DestinationTarget => assert Declared[8] == f;
      case Res3 => assert Declared[9] == f;
      case Destination => assert Declared[10] == f;
    }
  }

  /**
   * The fields are packed in declaration order from bit 0 without gaps, and
   * their widths add up to the 64 bits of the register; so the bit ranges of
   * different fields are disjoint.
   */
  lemma LayoutIsDeclarationOrder()
    ensures Offset(Declared[0]) == 0 && Contiguous(Declared)
    ensures Offset(Declared[10]) + Width(Declared[10]) == 64
    ensures SumWidths(Declared) == 64
  {
    DeclaredIsContiguous();
    ContiguousSpan(Declared);
  }

  /** Each declared field starts where the one declared before it ends. */
  lemma DeclaredIsContiguous()
    ensures Contiguous(Declared)
  {
    forall i | 0 <= i < |Declared| - 1
      ensures Offset(Declared[i]) + Width(Declared[i]) == Offset(Declared[i + 1])
    {
      // One case per pair of adjacent fields, so each is checked on its own.
      if i == 0 {} else if i == 1 {} else if i == 2 {} else if i == 3 {} else if i == 4 {}
      else if i == 5 {} else if i == 6 {} else if i == 7 {} else if i == 8 {} else {}
    }
  }

  // ---------------------------------------------------------------------
  // InterruptCommand: the register value with its getters and setters
  // ---------------------------------------------------------------------

  /** The fields of a command, each right-aligned: what the getters return. */
  datatype IcrFields = IcrFields(
    vector: U8, deliveryMode: U8, destinationMode: U8, deliveryStatus: U8,
    res1: U8, level: U8, triggerMode: U8, res2: U8, destinationTarget: U8,
    res3: bv64, destination: U8)
  {
    /** Every field value fits the width of its field. */
    predicate Fits() {
      deliveryMode <= 0x7 && destinationMode <= 0x1 && deliveryStatus <= 0x1 &&
      res1 <= 0x1 && level <= 0x1 && triggerMode <= 0x1 && res2 <= 0x3 &&
      destinationTarget <= 0x3 && res3 <= 0xF_FFFF_FFFF
    }
  }

  /**
   * The 64-bit Interrupt Command Register value (the `#[bitfield(u64)]`
   * struct). The getters and setters are those the bitfield macro generates:
   * a field of width w at offset o is read as `(bits >> o) & (2^w - 1)`, and
   * a setter cuts its argument to w bits and replaces bits o..o+w-1 with it.
   */
  datatype InterruptCommand = InterruptCommand(bits: bv64) {
    function GetVector(): U8 { (bits & 0xFF) }
    function GetDeliveryMode(): U8 { ((bits >> 8) & 0x7) }
    function GetDestinationMode(): U8 { ((bits >> 11) & 0x1) }
    function GetDeliveryStatus(): U8 { ((bits >> 12) & 0x1) }
    function GetRes1(): U8 { ((bits >> 13) & 0x1) }
    function GetLevel(): U8 { ((bits >> 14) & 0x1) }
    function GetTriggerMode(): U8 { ((bits >> 15) & 0x1) }
    function GetRes2(): U8 { ((bits >> 16) & 0x3) }
    function GetDestinationTarget(): U8 { ((bits >> 18) & 0x3) }
    function GetRes3(): bv64 { (bits >> 20) & 0xF_FFFF_FFFF }
    function GetDestination(): U8 { ((bits >> 56) & 0xFF) }

    /** All fields at once, as the getters read them. */
    function Decode(): (fs: IcrFields)
      ensures fs.Fits()
    {
      IcrFields(GetVector(), GetDeliveryMode(), GetDestinationMode(), GetDeliveryStatus(),
                GetRes1(), GetLevel(), GetTriggerMode(), GetRes2(), GetDestinationTarget(),
                GetRes3(), GetDestination())
    }

    // The setters the boot sequence uses.

    function SetVector(v: U8): InterruptCommand
    {
      InterruptCommand((bits & !0xFF) | v)
    }

    function SetDeliveryMode(v: U8): InterruptCommand
    {
      InterruptCommand((bits & !0x700) | ((v & 0x7) << 8))
    }

    function SetLevel(v: U8): InterruptCommand
    {
      InterruptCommand((bits & !0x4000) | ((v & 0x1) << 14))
    }

    function SetTriggerMode(v: U8): InterruptCommand
    {
      InterruptCommand((bits & !0x8000) | ((v & 0x1) << 15))
    }

    function SetDestinationTarget(v: U8): InterruptCommand
    {
      InterruptCommand((bits & !0xC_0000) | ((v & 0x3) << 18))
    }

    /** `Into<u64>` */
    function ToU64(): bv64 {
      bits
    }
  }

  /** The command whose fields are `fs`: each field value cut to its width and put in place. */
  function Encode(fs: IcrFields): (c: InterruptCommand) {
    InterruptCommand(
      fs.vector |
      ((fs.deliveryMode & 0x7) << 8) |
      ((fs.destinationMode & 0x1) << 11) |
      ((fs.deliveryStatus & 0x1) << 12) |
      ((fs.res1 & 0x1) << 13) |
      ((fs.level & 0x1) << 14) |
      ((fs.triggerMode & 0x1) << 15) |
      ((fs.res2 & 0x3) << 16) |
      ((fs.destinationTarget & 0x3) << 18) |
      ((fs.res3 & 0xF_FFFF_FFFF) << 20) |
      (fs.destination << 56))
  }

  /**
   * The fields cover the register: decoding and re-encoding a command gives
   * it back, so every bit belongs to some field.
   */
  lemma EncodeDecode(c: InterruptCommand)
    ensures Encode(c.Decode()) == c
  {
  }

  /**
   * The fields do not overlap: encoding fields that fit their widths
   * decodes to the same fields, so no two fields share a bit.
   */
  lemma DecodeEncode(fs: IcrFields)
    requires fs.Fits()
    ensures Encode(fs).Decode() == fs
  {
  }

  // Each setter changes its own field to the argument cut to the field's
  // width (the argument itself when it fits, as for `set_vector`) and leaves
  // every other field as it was.

  lemma SetVectorLaw(c: InterruptCommand, v: U8)
    ensures c.SetVector(v).Decode() == c.Decode().(vector := v)
    ensures c.SetVector(v) == WithFieldAt(c, Vector, v)
  {
  }

  lemma SetDeliveryModeLaw(c: InterruptCommand, v: U8)
    ensures c.SetDeliveryMode(v).Decode() == c.Decode().(deliveryMode := v & 0x7)
    ensures c.SetDeliveryMode(v) == WithFieldAt(c, DeliveryMode, v)
  {
  }

  lemma SetLevelLaw(c: InterruptCommand, v: U8)
    ensures c.SetLevel(v).Decode() == c.Decode().(level := v & 0x1)
    ensures c.SetLevel(v) == WithFieldAt(c, Level, v)
  {
  }

  lemma SetTriggerModeLaw(c: InterruptCommand, v: U8)
    ensures c.SetTriggerMode(v).Decode() == c.Decode().(triggerMode := v & 0x1)
    ensures c.SetTriggerMode(v) == WithFieldAt(c, TriggerMode, v)
  {
  }

  lemma SetDestinationTargetLaw(c: InterruptCommand, v: U8)
    ensures c.SetDestinationTarget(v).Decode() == c.Decode().(destinationTarget := v & 0x3)
    ensures c.SetDestinationTarget(v) == WithFieldAt(c, DestinationTarget, v)
  {
  }

  // ---------------------------------------------------------------------
  // The getters and setters follow the layout tables
  // ---------------------------------------------------------------------

  /** The offset of each field as a shift amount. */
  function Shift(f: Field): bv64 {
    match f
    case Vector => 0
    case DeliveryMode => 8
    case DestinationMode => 11
    case DeliveryStatus => 12
    case Res1 => 13
    case Level => 14
    case TriggerMode => 15
    case Res2 => 16
    case DestinationTarget => 18
    case Res3 => 20
    case Destination => 56
  }

  /** The right-aligned mask of each field. */
  function Mask(f: Field): bv64 {
    match f
    case Vector => 0xFF
    case DeliveryMode => 0x7
    case DestinationMode => 0x1
    case DeliveryStatus => 0x1
    case Res1 => 0x1
    case Level => 0x1
    case TriggerMode => 0x1
    case Res2 => 0x3
    case DestinationTarget => 0x3
    case Res3 => 0xF_FFFF_FFFF
    case Destination => 0xFF
  }

  /** Shift amounts and masks are the layout tables' offsets and widths. */
  lemma ShiftAndMaskFollowTables(f: Field)
    ensures Shift(f) as int == Offset(f)
    ensures Mask(f) == ((1 as bv64) << Width(f)) - 1
  {
  }

  /** Field `f` of `c`, read at the bit range the layout tables give it. */
  function FieldAt(c: InterruptCommand, f: Field): bv64 {
    (c.bits >> Shift(f)) & Mask(f)
  }

  /** `c` with field `f` replaced by `v` cut to the field's width, at the bit range the layout tables give it. */
  function WithFieldAt(c: InterruptCommand, f: Field, v: bv64): InterruptCommand {
    InterruptCommand((c.bits & !(Mask(f) << Shift(f))) | ((v & Mask(f)) << Shift(f)))
  }

  /** The getter of field `f`. */
  function Getter(c: InterruptCommand, f: Field): bv64 {
    match f
    case Vector => c.GetVector()
    case DeliveryMode => c.GetDeliveryMode()
    case DestinationMode => c.GetDestinationMode()
    case DeliveryStatus => c.GetDeliveryStatus()
    case Res1 => c.GetRes1()
    case Level => c.GetLevel()
    case TriggerMode => c.GetTriggerMode()
    case Res2 => c.GetRes2()
    case DestinationTarget => c.GetDestinationTarget()
    case Res3 => c.GetRes3()
    case Destination => c.GetDestination()
  }

  /** The getter of field `f` reads it at the bit range the layout tables assign to it. */
  lemma GetterFollowsLayout(c: InterruptCommand, f: Field)
    ensures Getter(c, f) == FieldAt(c, f)
  {
    match f
    case Vector =>
    case DeliveryMode =>
    case DestinationMode =>
    case DeliveryStatus =>
    case Res1 =>
    case Level =>
    case TriggerMode =>
    case Res2 =>
    case DestinationTarget =>
    case Res3 =>
    case Destination =>
  }

  /** Every getter reads its field at the bit range the layout tables assign to it. */
  lemma GettersFollowLayout(c: InterruptCommand)
    ensures forall f :: Getter(c, f) == FieldAt(c, f)
  {
    forall f ensures Getter(c, f) == FieldAt(c, f) {
      GetterFollowsLayout(c, f);
    }
  }

  /** A field value fits exactly when it lies within its field's mask. */
  lemma FitsFollowsLayout(fs: IcrFields)
    ensures fs.Fits() <==>
      && fs.vector <= Mask(Vector) && fs.deliveryMode <= Mask(DeliveryMode)
      && fs.destinationMode <= Mask(DestinationMode) && fs.deliveryStatus <= Mask(DeliveryStatus)
      && fs.res1 <= Mask(Res1) && fs.level <= Mask(Level) && fs.triggerMode <= Mask(TriggerMode)
      && fs.res2 <= Mask(Res2) && fs.destinationTarget <= Mask(DestinationTarget)
      && fs.res3 <= Mask(Res3) && fs.destination <= Mask(Destination)
  {
  }

  /** A command is determined by the values of its fields. */
  lemma FieldsDetermineCommand(a: InterruptCommand, b: InterruptCommand)
    requires a.Decode() == b.Decode()
    ensures a == b
  {
    EncodeDecode(a);
    EncodeDecode(b);
  }

  /** `InterruptCommand::new()`: the all-zero command. */
  function New(): InterruptCommand {
    InterruptCommand(0)
  }

  /** Every field of a new command is zero. */
  lemma NewIsAllZero()
    ensures New().Decode() == IcrFields(0, 0, 0, 0, 0, 0, 0, 0, 0, 0, 0)
  {
  }

  /** `From<u64>` */
  function FromU64(v: bv64): InterruptCommand {
    InterruptCommand(v)
  }

  /** The conversions to and from u64 are inverse to each other. */
  lemma U64RoundTrip(v: bv64, c: InterruptCommand)
    ensures FromU64(v).ToU64() == v
    ensures FromU64(c.ToU64()) == c
  {
  }

  // ---------------------------------------------------------------------
  // The 64-bit value as two 32-bit register words
  // ---------------------------------------------------------------------

  /** `(val >> 32) as u32` */
  function High(v: bv64): bv32
  {
    (v >> 32) as bv32
  }

  /** `(val & 0xFFFFFFFF) as u32` */
  function Low(v: bv64): bv32
  {
    (v & 0xFFFF_FFFF) as bv32
  }

  /** `low as u64 | (high as u64) << 32` */
  function Join(high: bv32, low: bv32): bv64
  {
    (low as bv64) | ((high as bv64) << 32)
  }

  /** Splitting a value into its words and joining them again are inverse. */
  lemma SplitJoin(v: bv64, h: bv32, l: bv32)
    ensures Join(High(v), Low(v)) == v
    ensures High(Join(h, l)) == h && Low(Join(h, l)) == l
  {
  }

  // ---------------------------------------------------------------------
  // The commands that boot the application cores
  // ---------------------------------------------------------------------

  /**
   * The field updates `send_init` and `send_startup` both make, in their
   * order: vector and delivery mode as given, then level Assert, edge
   * triggering and the shorthand AllExcludingCurrent.
   */
  function BootCommand(icr: InterruptCommand, vector: U8, mode: IpiDeliveryMode): InterruptCommand {
    icr.SetVector(vector)
       .SetDeliveryMode(mode.Code())
       .SetLevel(IpiLevel.Assert.Code())
       .SetTriggerMode(IpiTriggerMode.EdgeTriggered.Code())
       .SetDestinationTarget(IpiTarget.AllExcludingCurrent.Code())
  }

  /** The last three updates of a boot command: level 1, trigger mode 0, destination shorthand 3. */
  lemma ToAllOtherCoresLaw(c: InterruptCommand)
    ensures c.SetLevel(1).SetTriggerMode(0).SetDestinationTarget(3).Decode()
         == c.Decode().(level := 1, triggerMode := 0, destinationTarget := 3)
  {
    SetLevelLaw(c, 1);
    SetTriggerModeLaw(c.SetLevel(1), 0);
    SetDestinationTargetLaw(c.SetLevel(1).SetTriggerMode(0), 3);
  }

  /**
   * A boot command carries the given vector and delivery mode, level Assert
   * (1), edge triggering (0) and the shorthand AllExcludingCurrent (3); its
   * destination, destination mode, delivery status and reserved bits are
   * those of the ICR it was made from.
   */
  lemma BootCommandFields(icr: InterruptCommand, vector: U8, mode: IpiDeliveryMode)
    ensures BootCommand(icr, vector, mode).Decode()
         == icr.Decode().(vector := vector, deliveryMode := mode.Code() & 0x7,
                          level := 1, triggerMode := 0, destinationTarget := 3)
  {
    SetVectorLaw(icr, vector);
    SetDeliveryModeLaw(icr.SetVector(vector), mode.Code());
    ToAllOtherCoresLaw(icr.SetVector(vector).SetDeliveryMode(mode.Code()));
  }

  /** What `send_init` makes of the ICR it read: an INIT IPI to all other cores. */
  function InitCommand(icr: InterruptCommand): (c: InterruptCommand)
    ensures c.Decode()
         == icr.Decode().(vector := 0, deliveryMode := 5, level := 1, triggerMode := 0, destinationTarget := 3)
  {
    BootCommandFields(icr, 0, IpiDeliveryMode.Init);
    BootCommand(icr, 0, IpiDeliveryMode.Init)
  }

  /**
   * What `send_startup(vector)` makes of the ICR it read: a Startup IPI to
   * all other cores, the INIT command with the given vector and delivery
   * mode Startup (6) instead.
   */
  function StartupCommand(icr: InterruptCommand, vector: U8): (c: InterruptCommand)
    ensures c.Decode()
         == icr.Decode().(vector := vector, deliveryMode := 6, level := 1, triggerMode := 0, destinationTarget := 3)
    ensures c.Decode() == InitCommand(icr).Decode().(vector := vector, deliveryMode := 6)
  {
    BootCommandFields(icr, vector, IpiDeliveryMode.Startup);
    BootCommand(icr, vector, IpiDeliveryMode.Startup)
  }

  // ---------------------------------------------------------------------
  // The two ICR registers and the register protocol
  // ---------------------------------------------------------------------

  /** One access to the APIC's memory-mapped registers, at its full address. */
  datatype Access = Read(address: u32, value: bv32) | Write(address: u32, value: bv32)

  /** The mask of the delivery-status bit (bit 12) in the low ICR word. */
  const DELIVERY_STATUS_BIT: bv32 := 0x1000

  /**
   * The low ICR word as a read returns it: the delivery-status bit is the
   * hardware's (set while a send is pending), the other bits are the ones
   * last written.
   */
  function LowWordAsRead(written: bv32, pending: bool): bv32 {
    if pending then written | DELIVERY_STATUS_BIT else written & !DELIVERY_STATUS_BIT
  }

  /**
   * A low word as read keeps every written bit except the delivery status,
   * and as a command its delivery status is SendPending exactly while a
   * send is pending.
   */
  lemma LowWordStatus(written: bv32, pending: bool)
    ensures LowWordAsRead(written, pending) & !DELIVERY_STATUS_BIT == written & !DELIVERY_STATUS_BIT
    ensures FromU64(LowWordAsRead(written, pending) as bv64).GetDeliveryStatus()
         == (if pending then IpiDeliveryStatus.SendPending.Code() else IpiDeliveryStatus.Idle.Code())
  {
    if pending {
      assert LowWordAsRead(written, pending) == written | DELIVERY_STATUS_BIT;
    } else {
      assert LowWordAsRead(written, pending) == written & !DELIVERY_STATUS_BIT;
    }
  }

  /** `n` reads of the low word that all report SendPending. */
  function BusyReads(regs: map<u32, bv32>, n: nat): seq<Access>
    requires ICR_LOW in regs
  {
    if n == 0 then []
    else BusyReads(regs, n - 1) + [Read(IcrAddress(ICR_LOW), LowWordAsRead(regs[ICR_LOW], true))]
  }

  /**
   * The accesses of `read_icr_register` when the hardware reports SendPending
   * for `n` more reads: `n` busy reads of the low word, one idle read of it,
   * then one read of the high word.
   */
  function PollTrace(regs: map<u32, bv32>, n: nat): seq<Access>
    requires ICR_LOW in regs && ICR_HIGH in regs
  {
    BusyReads(regs, n)
      + [Read(IcrAddress(ICR_LOW), LowWordAsRead(regs[ICR_LOW], false)),
         Read(IcrAddress(ICR_HIGH), regs[ICR_HIGH])]
  }

  /** The command `read_icr_register` returns: the idle low word joined with the high word. */
  function IcrAsRead(regs: map<u32, bv32>): InterruptCommand
    requires ICR_LOW in regs && ICR_HIGH in regs
  {
    FromU64(Join(regs[ICR_HIGH], LowWordAsRead(regs[ICR_LOW], false)))
  }

  /**
   * The polling reads are `n` low-word reads reporting SendPending, then
   * one low-word read reporting Idle (see LowWordAsRead), then the
   * high-word read; the returned command consists of exactly the last low
   * word read and the high word read.
   */
  lemma PollTraceShape(regs: map<u32, bv32>, n: nat)
    requires ICR_LOW in regs && ICR_HIGH in regs
    ensures var t := PollTrace(regs, n);
      && |t| == n + 2
      && (forall i :: 0 <= i < n ==> t[i] == Read(0xfee0_0300, LowWordAsRead(regs[ICR_LOW], true)))
      && t[n] == Read(0xfee0_0300, LowWordAsRead(regs[ICR_LOW], false))
      && t[n + 1] == Read(0xfee0_0310, regs[ICR_HIGH])
      && IcrAsRead(regs).ToU64() == Join(t[n + 1].value, t[n].value)
  {
    BusyReadsShape(regs, n);
    var t := PollTrace(regs, n);
    forall i | 0 <= i < n
      ensures t[i] == Read(0xfee0_0300, LowWordAsRead(regs[ICR_LOW], true))
    {
      assert t[i] == BusyReads(regs, n)[i];
    }
  }

  /** The command `read_icr_register` returns has delivery status Idle. */
  lemma IcrAsReadIsIdle(regs: map<u32, bv32>)
    requires ICR_LOW in regs && ICR_HIGH in regs
    ensures IcrAsRead(regs).GetDeliveryStatus() == IpiDeliveryStatus.Idle.Code()
  {
    JoinedLowWordStatus(regs[ICR_HIGH], LowWordAsRead(regs[ICR_LOW], false));
    LowWordStatus(regs[ICR_LOW], false);
  }

  /** Every busy read is a read of the low word that reports SendPending. */
  lemma {:induction false} BusyReadsShape(regs: map<u32, bv32>, n: nat)
    requires ICR_LOW in regs
    ensures |BusyReads(regs, n)| == n
    ensures forall i :: 0 <= i < n ==>
      BusyReads(regs, n)[i] == Read(IcrAddress(ICR_LOW), LowWordAsRead(regs[ICR_LOW], true))
  {
    if n > 0 {
      BusyReadsShape(regs, n - 1);
    }
  }

  /** Or-ing the high word shifted by 32 into a low word read as a command joins the two words. */
  lemma OrInHighWord(low: bv32, high: bv32)
    ensures FromU64(low as bv64).ToU64() | ((high as bv64) << 32) == Join(high, low)
  {
  }

  /** One more busy read extends the busy reads by one low-word read reporting SendPending. */
  lemma BusyReadsStep(regs: map<u32, bv32>, n: nat)
    requires ICR_LOW in regs
    ensures BusyReads(regs, n + 1) == BusyReads(regs, n) + [Read(IcrAddress(ICR_LOW), LowWordAsRead(regs[ICR_LOW], true))]
  {
  }

  /** Or-ing the high word in above bit 31 leaves the low word's delivery status as it is. */
  lemma JoinedLowWordStatus(high: bv32, low: bv32)
    ensures FromU64(Join(high, low)).GetDeliveryStatus() == FromU64(low as bv64).GetDeliveryStatus()
  {
  }

  /** The two writes of `send(val)`: the high word, then the low word. */
  function SendTrace(val: bv64): seq<Access> {
    [Write(IcrAddress(ICR_HIGH), High(val)), Write(IcrAddress(ICR_LOW), Low(val))]
  }

  /**
   * The local APIC's Interrupt Command Register as seen through
   * `read_reg32`/`write_reg32`, with a record of every access.
   */
  class LocalApic {
    /** The ICR words by offset from APIC_BASE: the values last written to them. */
    var regs: map<u32, bv32>
    /** How many more reads of the low word report SendPending before the hardware reports Idle. */
    var pendingPolls: nat
    /**
     * How many reads of the low word report SendPending after a command is
     * written to it, before the hardware has accepted that command.
     */
    const acceptPolls: nat
    /** Every register access so far, in program order. */
    var trace: seq<Access>

    ghost predicate Valid()
      reads this
    {
      ICR_LOW in regs && ICR_HIGH in regs
    }

    constructor (low: bv32, high: bv32, pendingPolls: nat, acceptPolls: nat)
      ensures Valid()
      ensures regs == map[ICR_LOW := low, ICR_HIGH := high]
      ensures this.pendingPolls == pendingPolls && this.acceptPolls == acceptPolls && trace == []
    {
      regs := map[ICR_LOW := low, ICR_HIGH := high];
      this.pendingPolls := pendingPolls;
      this.acceptPolls := acceptPolls;
      trace := [];
    }

    /** `read_reg32(reg)`: one volatile load from `APIC_BASE + reg`. */
    method ReadReg32(reg: u32) returns (value: bv32)
      requires Valid() && IsIcrRegister(reg)
      modifies this
      ensures Valid() && regs == old(regs)
      ensures value == if reg == ICR_LOW then LowWordAsRead(regs[ICR_LOW], old(pendingPolls) > 0) else regs[reg]
      ensures pendingPolls
           == if reg == ICR_LOW && old(pendingPolls) > 0 then old(pendingPolls) - 1 else old(pendingPolls)
      ensures trace == old(trace) + [Read(IcrAddress(reg), value)]
    {
      if reg == ICR_LOW {
        value := LowWordAsRead(regs[ICR_LOW], pendingPolls > 0);
        if pendingPolls > 0 {
          pendingPolls := pendingPolls - 1;
        }
      } else {
        value := regs[reg];
      }
      trace := trace + [Read(IcrAddress(reg), value)];
    }

    /**
     * `write_reg32(reg, value)`: one volatile store to `APIC_BASE + reg`.
     * A store to the low word issues the command, which reads as pending
     * until the hardware accepts it.
     */
    method WriteReg32(reg: u32, value: bv32)
      requires Valid() && IsIcrRegister(reg)
      modifies this
      ensures Valid() && regs == old(regs)[reg := value]
      ensures pendingPolls == if reg == ICR_LOW then acceptPolls else old(pendingPolls)
      ensures trace == old(trace) + [Write(IcrAddress(reg), value)]
    {
      regs := regs[reg := value];
      if reg == ICR_LOW {
        pendingPolls := acceptPolls;
      }
      trace := trace + [Write(IcrAddress(reg), value)];
    }

    /**
     * `send(val)`: writes the high word to 0xfee00310, then the low word to
     * 0xfee00300; joined again, the two words written are `val`. The
     * command is pending until the hardware accepts it.
     */
    method Send(val: bv64)
      requires Valid()
      modifies this
      ensures Valid() && pendingPolls == acceptPolls
      ensures regs == old(regs)[ICR_HIGH := High(val)][ICR_LOW := Low(val)]
      ensures trace == old(trace) + SendTrace(val)
      ensures trace[|trace| - 2] == Write(0xfee0_0310, High(val))
      ensures trace[|trace| - 1] == Write(0xfee0_0300, Low(val))
      ensures Join(trace[|trace| - 2].value, trace[|trace| - 1].value) == val
    {
      var highVal := High(val);
      WriteReg32(ICR_HIGH, highVal);
      var lowVal := Low(val);
      WriteReg32(ICR_LOW, lowVal);
      SplitJoin(val, highVal, lowVal);
    }

    /**
     * One iteration of the polling loop of `read_icr_register`: reads the
     * low word, converts it to a command and tests its delivery status for
     * Idle, which holds exactly when no send is pending any more.
     */
    method PollOnce() returns (icr: InterruptCommand, idle: bool)
      requires Valid()
      modifies this
      ensures Valid() && regs == old(regs)
      ensures idle <==> old(pendingPolls) == 0
      ensures pendingPolls == if idle then 0 else old(pendingPolls) - 1
      ensures icr == FromU64(LowWordAsRead(regs[ICR_LOW], old(pendingPolls) > 0) as bv64)
      ensures trace == old(trace) + [Read(IcrAddress(ICR_LOW), LowWordAsRead(regs[ICR_LOW], old(pendingPolls) > 0))]
    {
      ghost var pending := pendingPolls > 0;
      var lowValue := ReadReg32(ICR_LOW);
      icr := FromU64(lowValue as bv64);
      idle := icr.GetDeliveryStatus() == IpiDeliveryStatus.Idle.Code();
      assert idle == !pending;
    }

    /**
     * The polling loop of `read_icr_register`: reads the low word until its
     * delivery status is Idle and returns the last word read as a command.
     */
    method PollLowWord() returns (icr: InterruptCommand)
      requires Valid()
      modifies this
      ensures Valid() && regs == old(regs) && pendingPolls == 0
      ensures trace == old(trace) + BusyReads(regs, old(pendingPolls)) + [Read(IcrAddress(ICR_LOW), LowWordAsRead(regs[ICR_LOW], false))]
      ensures icr == FromU64(LowWordAsRead(regs[ICR_LOW], false) as bv64)
    {
      icr := New();
      while true
        invariant Valid() && regs == old(regs)
        invariant pendingPolls <= old(pendingPolls)
        invariant trace == old(trace) + BusyReads(regs, old(pendingPolls) - pendingPolls)
        decreases pendingPolls
      {
        ghost var done := old(pendingPolls) - pendingPolls;
        var idle;
        icr, idle := PollOnce();
        if idle {
          break;
        }
        BusyReadsStep(regs, done);
      }
    }

    /**
     * `read_icr_register`: polls the low word until its delivery status is
     * Idle, then reads the high word and joins the two.
     */
    method ReadIcrRegister() returns (icr: InterruptCommand)
      requires Valid()
      modifies this
      ensures Valid() && regs == old(regs) && pendingPolls == 0
      ensures trace == old(trace) + PollTrace(old(regs), old(pendingPolls))
      ensures icr == IcrAsRead(old(regs))
      ensures icr.GetDeliveryStatus() == IpiDeliveryStatus.Idle.Code()
    {
      icr := PollLowWord();
      ghost var low := LowWordAsRead(regs[ICR_LOW], false);
      ghost var high := regs[ICR_HIGH];
      assert IcrAsRead(regs) == FromU64(Join(high, low));
      var highValue := ReadReg32(ICR_HIGH);
      assert highValue == high;
      var existingValue := icr.ToU64();
      existingValue := existingValue | ((highValue as bv64) << 32);
      OrInHighWord(low, highValue);
      icr := FromU64(existingValue);
      IcrAsReadIsIdle(regs);
    }

    /**
     * `send_init`: reads the ICR and sends the INIT command made from it;
     * the register accesses are the polling reads, then the two writes.
     */
    method SendInit()
      requires Valid()
      modifies this
      ensures Valid() && pendingPolls == acceptPolls
      ensures var sent := InitCommand(IcrAsRead(old(regs))).ToU64();
        && trace == old(trace) + PollTrace(old(regs), old(pendingPolls)) + SendTrace(sent)
        && regs == old(regs)[ICR_HIGH := High(sent)][ICR_LOW := Low(sent)]
    {
      var icr := New();
      icr := ReadIcrRegister();
      icr := icr.SetVector(0);
      icr := icr.SetDeliveryMode(IpiDeliveryMode.Init.Code());
      icr := icr.SetLevel(IpiLevel.Assert.Code());
      icr := icr.SetTriggerMode(IpiTriggerMode.EdgeTriggered.Code());
      icr := icr.SetDestinationTarget(IpiTarget.AllExcludingCurrent.Code());
      var val := icr.ToU64();
      Send(val);
    }

    /**
     * `send_startup(vector)`: reads the ICR and sends the Startup command
     * made from it; the register accesses are the polling reads, then the
     * two writes.
     */
    method SendStartup(vector: U8)
      requires Valid()
      modifies this
      ensures Valid() && pendingPolls == acceptPolls
      ensures var sent := StartupCommand(IcrAsRead(old(regs)), vector).ToU64();
        && trace == old(trace) + PollTrace(old(regs), old(pendingPolls)) + SendTrace(sent)
        && regs == old(regs)[ICR_HIGH := High(sent)][ICR_LOW := Low(sent)]
    {
      var icr := New();
      icr := ReadIcrRegister();
      icr := icr.SetVector(vector);
      icr := icr.SetDeliveryMode(IpiDeliveryMode.Startup.Code());
      icr := icr.SetLevel(IpiLevel.Assert.Code());
      icr := icr.SetTriggerMode(IpiTriggerMode.EdgeTriggered.Code());
      icr := icr.SetDestinationTarget(IpiTarget.AllExcludingCurrent.Code());
      var val := icr.ToU64();
      Send(val);
    }
  }
}
