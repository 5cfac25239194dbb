/**
 * The virtio glue of the kernel: translating a PCI device's header type
 * into the form the virtio driver crate expects, and the start-up scan that
 * classifies every virtio-vendor device on the PCI bus and dispatches it.
 *
 * The PCI bus search, the configuration-space reads and the classifier
 * `virtio_device_type` belong to other crates; the devices found and the
 * classifier are inputs of the model.
 */
module Virtio {
  import opened Wrappers

  type u8 = x: int | 0 <= x < 0x100
  type u16 = x: int | 0 <= x < 0x1_0000

  // ---------------------------------------------------------------------
  // Header types
  // ---------------------------------------------------------------------

  /**
   * `pci_types::HeaderType`. `Other` stands for any further variant of
   * that enum, the values the wildcard arm of `type2type` catches.
   */
  datatype PciHeaderType = Endpoint | PciPciBridge | CardBusBridge | Unknown(code: u8) | Other

  /** `virtio_drivers::transport::pci::bus::HeaderType`. */
  datatype BusHeaderType = Standard | PciPciBridge | PciCardbusBridge | Unrecognised(code: u8)

  /**
   * The reference reading of a virtio header type as a PCI one: the kind
   * of the same name, with an unrecognised code kept as it is.
   */
  function AsPciHeaderType(h: BusHeaderType): PciHeaderType {
    match h
    case Standard => Endpoint
    case PciPciBridge => PciHeaderType.PciPciBridge
    case PciCardbusBridge => CardBusBridge
    case Unrecognised(v) => Unknown(v)
  }

  /**
   * `type2type`: every header type the PCI crate names is translated to the
   * virtio header type that means the same (reading back gives the input);
   * any other header type becomes `Unrecognised(0)`.
   */
  function Type2Type(input: PciHeaderType): (r: BusHeaderType)
    ensures input != Other ==> AsPciHeaderType(r) == input
    ensures input == Other ==> r == Unrecognised(0)
  {
    match input
    case Endpoint => Standard
    case PciPciBridge => BusHeaderType.PciPciBridge
    case CardBusBridge => PciCardbusBridge
    case Unknown(v) => Unrecognised(v)
    case _ => Unrecognised(0)
  }

  /** Every virtio header type is the translation of some PCI header type. */
  lemma Type2TypeOnto(h: BusHeaderType)
    ensures Type2Type(AsPciHeaderType(h)) == h
  {
  }

  /**
   * The translation loses information only in the wildcard arm: two
   * different header types translate alike only when one of them is the
   * wildcard case and the other is `Unknown(0)`.
   */
  lemma Type2TypeCollisions(a: PciHeaderType, b: PciHeaderType)
    requires a != b && Type2Type(a) == Type2Type(b)
    ensures (a == Other && b == Unknown(0)) || (a == Unknown(0) && b == Other)
  {
  }

  // ---------------------------------------------------------------------
  // Devices and their classification
  // ---------------------------------------------------------------------

  /**
   * What the configuration-space header of a PCI function reports: its
   * ids, its revision and class codes, and its header type.
   */
  datatype PciDevice = PciDevice(
    vendorId: u16, deviceId: u16,
    revision: u8, classCode: u8, subclass: u8, progIf: u8,
    headerType: PciHeaderType)

  /** `virtio_drivers::transport::pci::bus::DeviceFunctionInfo`. */
  datatype DeviceFunctionInfo = DeviceFunctionInfo(
    vendorId: u16, deviceId: u16,
    classCode: u8, subclass: u8, progIf: u8, revision: u8,
    headerType: BusHeaderType)

  /** A virtio device type (`virtio_drivers::transport::DeviceType`), by its virtio device id. */
  datatype DeviceType = DeviceType(id: nat)

  /** The record `init` hands to the classifier: the header's fields, the header type translated. */
  function InfoOf(d: PciDevice): DeviceFunctionInfo {
    DeviceFunctionInfo(d.vendorId, d.deviceId, d.classCode, d.subclass, d.progIf, d.revision,
                       Type2Type(d.headerType))
  }

  // ---------------------------------------------------------------------
  // Dispatch
  // ---------------------------------------------------------------------

  /** What bringing up a device of a given type amounts to. */
  datatype Disposition = StartDriver(typ: DeviceType) | IgnoreType(typ: DeviceType)

  /**
   * `handle_virtio_pci_device`: its only match arm binds every type, so a
   * device of any type is ignored and no driver is constructed.
   */
  function HandleVirtioPciDevice(typ: DeviceType): (d: Disposition)
    ensures !d.StartDriver? && d.typ == typ
  {
    IgnoreType(typ)
  }

  /** What `init` did with one device. */
  datatype Outcome =
    | Dispatched(typ: DeviceType, disposition: Disposition)
    | IgnoredDevice(deviceId: u16)

  /**
   * One iteration of `init`: a device the classifier recognises is handed
   * to `handle_virtio_pci_device` with its type, any other one is ignored
   * (and logged by its device id).
   */
  function Visit(d: PciDevice, classify: DeviceFunctionInfo -> Option<DeviceType>): Outcome {
    match classify(InfoOf(d))
    case Some(t) => Dispatched(t, HandleVirtioPciDevice(t))
    case None => IgnoredDevice(d.deviceId)
  }

  /**
   * `init`, given the devices the vendor-id search returned: visits every
   * one of them exactly once, in order, recording what was done with it.
   */
  method Init(devices: seq<PciDevice>, classify: DeviceFunctionInfo -> Option<DeviceType>)
    returns (outcomes: seq<Outcome>)
    ensures |outcomes| == |devices|
    ensures forall i :: 0 <= i < |devices| ==> outcomes[i] == Visit(devices[i], classify)
  {
    outcomes := [];
    for k := 0 to |devices|
      invariant |outcomes| == k
      invariant forall i :: 0 <= i < k ==> outcomes[i] == Visit(devices[i], classify)
    {
      var device := devices[k];
      var outcome;
      match classify(InfoOf(device)) {
        case Some(t) =>
          var disposition := HandleVirtioPciDevice(t);
          outcome := Dispatched(t, disposition);
        case None =>
          outcome := IgnoredDevice(device.deviceId);
      }
      outcomes := outcomes + [outcome];
    }
  }

  /**
   * A device is dispatched exactly when the classifier recognises it, with
   * the type the classifier gave; otherwise it is ignored under its own
   * device id.
   */
  lemma VisitDispatchesClassified(d: PciDevice, classify: DeviceFunctionInfo -> Option<DeviceType>)
    ensures Visit(d, classify).Dispatched? <==> classify(InfoOf(d)).Some?
    ensures Visit(d, classify).Dispatched? ==> Visit(d, classify).typ == classify(InfoOf(d)).value
    ensures Visit(d, classify).IgnoredDevice? ==> Visit(d, classify).deviceId == d.deviceId
  {
  }

  /** The number of outcomes in which a device was dispatched. */
  function DispatchedCount(outcomes: seq<Outcome>): nat {
    if outcomes == [] then 0
    else (if outcomes[0].Dispatched? then 1 else 0) + DispatchedCount(outcomes[1..])
  }

  /** The number of devices the classifier recognises. */
  function ClassifiedCount(devices: seq<PciDevice>, classify: DeviceFunctionInfo -> Option<DeviceType>): nat {
    if devices == [] then 0
    else (if classify(InfoOf(devices[0])).Some? then 1 else 0) + ClassifiedCount(devices[1..], classify)
  }

  /**
   * After `init`, as many devices were handed to `handle_virtio_pci_device`
   * as the classifier recognises, and none of them got a driver.
   */
  lemma {:induction false} InitDispatchesEveryClassifiedDevice(
    devices: seq<PciDevice>, classify: DeviceFunctionInfo -> Option<DeviceType>, outcomes: seq<Outcome>)
    requires |outcomes| == |devices|
    requires forall i :: 0 <= i < |devices| ==> outcomes[i] == Visit(devices[i], classify)
    ensures DispatchedCount(outcomes) == ClassifiedCount(devices, classify)
    ensures forall i :: 0 <= i < |outcomes| && outcomes[i].Dispatched? ==> !outcomes[i].disposition.StartDriver?
  {
    if devices != [] {
      InitDispatchesEveryClassifiedDevice(devices[1..], classify, outcomes[1..]);
      VisitDispatchesClassified(devices[0], classify);
    }
  }
}
