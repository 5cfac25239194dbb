# IPI boot commands and virtio device dispatch

This project holds two parts of a hobby x86-64 kernel and proves facts about them.

**Inter-processor interrupts (`Ipi`, ipi.dfy).** The kernel boots the application cores through the local APIC's Interrupt Command Register (ICR). The ICR is a 64-bit register laid out as in section 10.6.1 of the Intel 64 and IA-32 Architectures Software Developer's Manual, Volume 3A. It is memory-mapped as two 32-bit words: the low word at `APIC_BASE + 0x300` and the high word at `APIC_BASE + 0x310`.
- The model holds the bitfield value `InterruptCommand` with its getters, setters and u64 conversions.
- It holds the field layout as offset and width tables.
- It holds the register addresses.
- The class `LocalApic` holds the two ICR words. Its methods are `read_reg32`, `write_reg32`, `send`, `read_icr_register`, `send_init` and `send_startup`.
- Each access appends an entry to a trace, which records every memory-mapped access in program order with its full address.

**Virtio glue (`Virtio`, virtio.dfy).** Two operations are modelled:
- `type2type` translates a `pci_types` header type into a `virtio_drivers` one.
- `init` visits every device with the virtio vendor id, hands it to a classifier, and passes a classified device to `handle_virtio_pci_device`. That function starts no driver: its single match arm binds every type and only logs it.

The PCI bus search and the classifier `virtio_device_type` belong to other crates, so they are inputs of `Init`: the list of devices found, and a function.

`Wrappers` (wrappers.dfy) holds the `Option` type.

## How hardware is modelled

- Only the two ICR words are modelled as registers (`LocalApic.regs`). A write stores the word.
- A read of the high word returns the stored word.
- A read of the low word returns the stored word with bit 12 set by the hardware:
  - SendPending while `pendingPolls > 0`, and each such read decrements `pendingPolls`;
  - Idle once `pendingPolls` reaches 0.
- A write of the low word issues a new command. `pendingPolls` becomes `acceptPolls`, the number of low-word reads for which the hardware reports a new command as pending before accepting it.
- So `pendingPolls` is how often the hardware still reports a pending send. It and `acceptPolls` are inputs like the initial words. `pendingPolls` also bounds the polling loop, which in the source waits as long as the hardware wants.
- After `send_init`, the ICR reads SendPending for `acceptPolls` reads. So the polling of a following `send_startup` starts with that many busy reads.

## Model

| member | source | states |
|---|---|---|
| `Ipi.RegisterAddressInjective` | os/kernel/src/ipi.rs:22-37 | an address identifies its register: the offset is the address's distance from the APIC base, and two offsets are at the same address exactly when they are equal |
| `Ipi.IcrAddressesFit` | os/kernel/src/ipi.rs:16-23 | the two ICR words are at 0xfee00300 and 0xfee00310, and adding these offsets to the base does not overflow a u32 |
| `Ipi.IcrAddress` | os/kernel/src/ipi.rs:28-37 | for the two ICR offsets the register address exists and is the one accessed |
| `Ipi.ContiguousSpan` | os/kernel/src/ipi.rs:103-149 | fields packed one after another span, from the first one's offset, exactly the sum of their widths |
| `Ipi.EachFieldDeclaredOnce` | os/kernel/src/ipi.rs:103-149 | the struct declares eleven fields, each exactly once |
| `Ipi.LayoutIsDeclarationOrder` | os/kernel/src/ipi.rs:103-149 | the SDM offsets are the declaration order packed from bit 0 without gaps; the last field ends at bit 64, and the widths add up to the register's 64 bits |
| `Ipi.DeclaredIsContiguous` | os/kernel/src/ipi.rs:103-149 | each declared field starts where the one declared before it ends |
| `Ipi.ShiftAndMaskFollowTables` | os/kernel/src/ipi.rs:103-149 | the shift amount of each field is its offset in the layout table, and its mask has exactly its width's number of low bits set |
| `Ipi.GettersFollowLayout` | os/kernel/src/ipi.rs:103-149 | every getter reads its field at the offset and width the layout table gives it, so the getters read the fields in declaration order packed from bit 0 |
| `Ipi.FitsFollowsLayout` | os/kernel/src/ipi.rs:103-149 | field values fit exactly when each lies within the mask of its field's declared width |
| `Ipi.InterruptCommand.Decode` | os/kernel/src/ipi.rs:103-149 | every field a getter returns fits in the field's declared number of bits |
| `Ipi.EncodeDecode` | os/kernel/src/ipi.rs:103-149 | every bit of the register belongs to some field: re-encoding the decoded fields gives the same value |
| `Ipi.DecodeEncode` | os/kernel/src/ipi.rs:103-149 | no two fields share a bit: field values that fit their widths are read back unchanged |
| `Ipi.FieldsDetermineCommand` | os/kernel/src/ipi.rs:103-149 | two commands with equal field values are the same command |
| `Ipi.SetVectorLaw` | os/kernel/src/ipi.rs:105-107 | `set_vector(v)` makes the vector `v` and leaves every other field unchanged; it replaces exactly the bit range the layout table gives the vector |
| `Ipi.SetDeliveryModeLaw` | os/kernel/src/ipi.rs:109-112 | `set_delivery_mode(v)` makes the delivery mode `v` cut to 3 bits and leaves every other field unchanged; it replaces exactly the bit range the layout table gives the delivery mode |
| `Ipi.SetLevelLaw` | os/kernel/src/ipi.rs:126-128 | `set_level(v)` makes the level `v` cut to 1 bit and leaves every other field unchanged; it replaces exactly the bit range the layout table gives the level |
| `Ipi.SetTriggerModeLaw` | os/kernel/src/ipi.rs:130-132 | `set_trigger_mode(v)` makes the trigger mode `v` cut to 1 bit and leaves every other field unchanged; it replaces exactly the bit range the layout table gives the trigger mode |
| `Ipi.SetDestinationTargetLaw` | os/kernel/src/ipi.rs:138-140 | `set_destination_target(v)` makes the destination target `v` cut to 2 bits and leaves every other field unchanged; it replaces exactly the bit range the layout table gives the destination target |
| `Ipi.NewIsAllZero` | os/kernel/src/ipi.rs:154 | every field of `InterruptCommand::new()` is zero |
| `Ipi.U64RoundTrip` | os/kernel/src/ipi.rs:175-177 | converting a command to u64 and back, or a u64 to a command and back, gives what one started with |
| `Ipi.SplitJoin` | os/kernel/src/ipi.rs:182-188 | the high and low words that `send` writes join back to the value sent, and each word of a joined value is the word joined in |
| `Ipi.ToAllOtherCoresLaw` | os/kernel/src/ipi.rs:197-199 | setting level Assert, edge triggering and the AllExcludingCurrent shorthand yields level 1, trigger mode 0 and destination target 3, with all other fields unchanged |
| `Ipi.BootCommandFields` | os/kernel/src/ipi.rs:195-199 | the update sequence common to INIT and Startup commands sets vector, delivery mode, level, trigger mode and destination target, and keeps destination, destination mode, delivery status and reserved bits of the ICR that was read |
| `Ipi.InitCommand` | os/kernel/src/ipi.rs:191-203 | the command `send_init` sends is the ICR that was read with vector 0, delivery mode Init (5), level 1, trigger mode 0 and destination target 3 |
| `Ipi.StartupCommand` | os/kernel/src/ipi.rs:205-218 | the command `send_startup(vector)` sends has the given vector and delivery mode Startup (6); otherwise it is exactly the INIT command made from the same ICR |
| `Ipi.LowWordStatus` | os/kernel/src/ipi.rs:158-165 | a low word as read keeps every written bit except bit 12, and its delivery status reads SendPending exactly while a send is pending |
| `Ipi.BusyReadsShape` | os/kernel/src/ipi.rs:158-166 | the reads of the loop before the last one are all reads of 0xfee00300 that report SendPending |
| `Ipi.PollTraceShape` | os/kernel/src/ipi.rs:153-180 | `read_icr_register` makes `n + 2` accesses: `n` busy reads of the low word, one idle read of it, one read of the high word; the command it returns is the last two words read, joined |
| `Ipi.IcrAsReadIsIdle` | os/kernel/src/ipi.rs:163-177 | the command `read_icr_register` returns has delivery status Idle: or-ing in the high word does not disturb the status bit the loop waited for |
| `Ipi.JoinedLowWordStatus` | os/kernel/src/ipi.rs:175-177 | or-ing the high word above bit 31 leaves the low word's delivery status as it is |
| `Ipi.LocalApic.ReadReg32` | os/kernel/src/ipi.rs:28-30 | a read loads the word at `APIC_BASE + reg`, records that one access, and changes no register; reading the low word consumes one pending poll |
| `Ipi.LocalApic.WriteReg32` | os/kernel/src/ipi.rs:35-37 | a write stores the word at `APIC_BASE + reg`, records that one access, and changes only that register; a write of the low word issues a command, which then reads as pending for `acceptPolls` reads |
| `Ipi.LocalApic.Send` | os/kernel/src/ipi.rs:182-188 | `send(val)` writes the high word to 0xfee00310 first and the low word to 0xfee00300 second; the two words written join back to `val`; the command is then pending for `acceptPolls` reads |
| `Ipi.LocalApic.PollOnce` | os/kernel/src/ipi.rs:159-165 | one iteration reads the low word once; it stops the loop exactly when no send is pending any more |
| `Ipi.LocalApic.PollLowWord` | os/kernel/src/ipi.rs:157-166 | the loop performs as many busy reads as the hardware reports SendPending, then one idle read, and yields that idle word |
| `Ipi.LocalApic.ReadIcrRegister` | os/kernel/src/ipi.rs:153-180 | `read_icr_register` makes exactly the accesses of `PollTrace`, changes no register, and returns the idle low word joined with the high word, a command whose delivery status is Idle |
| `Ipi.LocalApic.SendInit` | os/kernel/src/ipi.rs:191-203 | `send_init` first polls the ICR, then writes the INIT command made from what it read, high word first; the ICR then holds that command, pending for `acceptPolls` reads |
| `Ipi.LocalApic.SendStartup` | os/kernel/src/ipi.rs:205-218 | `send_startup(vector)` first polls the ICR, then writes the Startup command made from what it read, high word first; the ICR then holds that command, pending for `acceptPolls` reads |
| `Virtio.Type2Type` | os/kernel/src/device/virtio.rs:37-45 | every header type the PCI crate names translates to the virtio header type of the same meaning (reading it back gives the input); any other header type becomes `Unrecognised(0)` |
| `Virtio.Type2TypeOnto` | os/kernel/src/device/virtio.rs:37-45 | every virtio header type is the translation of some PCI header type |
| `Virtio.Type2TypeCollisions` | os/kernel/src/device/virtio.rs:42-43 | two different header types translate alike only for `Unknown(0)` and the wildcard case |
| `Virtio.HandleVirtioPciDevice` | os/kernel/src/device/virtio.rs:48-53 | a device of any type is ignored: no driver is started for it |
| `Virtio.Init` | os/kernel/src/device/virtio.rs:17-34 | `init` visits every device of the vendor-id search exactly once, in order, and each outcome is that device's classify-and-dispatch step |
| `Virtio.VisitDispatchesClassified` | os/kernel/src/device/virtio.rs:25-32 | a device is passed to `handle_virtio_pci_device` exactly when the classifier gives it a type, with that type; otherwise it is ignored under its own device id |
| `Virtio.InitDispatchesEveryClassifiedDevice` | os/kernel/src/device/virtio.rs:17-53 | after `init`, the number of dispatched devices is the number of devices the classifier recognises, and none of them got a driver |

## Left out

- Setters of the six fields the boot commands do not change are not modelled. These are `destination_mode`, `delivery_status`, `res1`, `res2`, `res3` and `destination`. The builder-style `with_*` methods the bitfield macro generates are left out too.
- The setters follow the bitfield macro's release behaviour: an argument wider than its field is cut to the field's width. A debug-build assertion on such arguments is not modelled, since that macro's code is not part of this model.
- `Ipi.RegisterAddress` returns `None` where the source's `APIC_BASE + reg` would overflow. The wrap-around of a release build is not modelled, because only the two ICR offsets are ever used and neither overflows.
- Volatile memory-mapped access is modelled as a map holding the two ICR words. Other APIC registers, caching and memory ordering are not modelled.
- The hardware's delivery-status behaviour is given by the inputs `pendingPolls` and `acceptPolls`. Every command written takes the same number of reads, `acceptPolls`, to be accepted; acceptance times that differ from one send to the next are not modelled. A local APIC that never becomes Idle would keep the source's loop spinning forever; it is not modelled.
- What an IPI does on the receiving cores, and any multi-core effect, is not modelled.
- The `info!` log messages of `init` and `handle_virtio_pci_device` are not modelled; `Init`'s outcomes record per device what was logged about it.
- `pci_bus().search_by_vendor_id(VIRTIO_VENDOR_ID)` and the configuration-space reads of id, revision, class and header type belong to the PCI crate. Their results are the `devices` input of `Virtio.Init`, one `PciDevice` record per device.
- `virtio_device_type` is an input function of `Virtio.Init`, and `DeviceType` is an opaque type id, because both come from the `virtio_drivers` crate.
- The wildcard arm of `type2type` matches the variants of `pci_types::HeaderType` that `type2type` does not name. They are modelled by the single variant `Other`.
- `D3OSHal` has no behaviour to model, because every one of its methods is `todo!()`.
- The network stack (`network/mod.rs`), the HTTP server, the C library headers and the Game Boy emulator are not part of this model.
