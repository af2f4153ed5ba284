// The hwconf file: the lines each device is written as, and the meaning of a line that is read.
module HwConf {
  import opened Common
  import opened Text

  datatype Class = UnspecClass | OtherClass | Network | ScsiClass | Mouse | Audio | Cdrom | Modem | Video
                 | Tape | Floppy | Scanner | Hd | Raid | Printer | Capture | KeyboardClass | Monitor
                 | UsbClass | Socket | FirewireClass | IdeClass

  datatype Bus = UnspecBus | OtherBus | PciBus | Sbus | UsbBus | Psaux | Serial | Parallel | ScsiBus | IdeBus
               | KeyboardBus | DdcBus | Isapnp | Misc | FirewireBus | Pcmcia | Adb | Macio | Vio | S390 | Xen

  datatype PciFields = PciFields(vendorId: int, deviceId: int, pciType: int, subVendorId: int, subDeviceId: int,
                                 pcidom: int, pcibus: int, pcidev: int, pcifn: int)

  datatype UsbFields = UsbFields(usbclass: int, usbsubclass: int, usbprotocol: int, usbbus: int, usblevel: int,
                                 usbport: int, usbdev: int, vendorId: int, deviceId: int,
                                 usbmfr: Option<string>, usbprod: Option<string>)

  datatype ScsiFields = ScsiFields(host: int, channel: int, id: int, lun: int)

  // `modes` is the array of widths and heights up to the zero that ends it; [] is NULL.
  datatype DdcFields = DdcFields(id: Option<string>, horizSyncMin: int, horizSyncMax: int, vertRefreshMin: int,
                                 vertRefreshMax: int, modes: seq<int>, mem: int)

  // The fields that depend on the bus. Buses without own fields, or whose own fields are
  // not modelled, are Plain.
  datatype Payload = Plain(bus: Bus) | Pci(pci: PciFields) | Usb(usb: UsbFields) | Scsi(scsi: ScsiFields)
                   | Ddc(ddc: DdcFields)

  // A device; `private` is the hardware address of a network device and the X driver
  // of a video device.
  datatype Record = Record(cls: Class, device: Option<string>, driver: Option<string>, desc: Option<string>,
                           detached: int, private: Option<string>, payload: Payload)

  datatype Key = ClassKey | BusKey | DriverKey | DetachedKey | DeviceKey | DescKey | HwaddrKey | XdriverKey
               | VendorIdKey | DeviceIdKey | PciTypeKey | SubVendorIdKey | SubDeviceIdKey
               | PcidomKey | PcibusKey | PcidevKey | PcifnKey
               | HostKey | ChannelKey | IdKey | LunKey
               | HorizSyncMinKey | HorizSyncMaxKey | VertRefreshMinKey | VertRefreshMaxKey | ModeKey | MemKey
               | UsbclassKey | UsbsubclassKey | UsbprotocolKey | UsbbusKey | UsblevelKey | UsbportKey
               | UsbdevKey | UsbmfrKey | UsbprodKey

  // ------------------------------------------------------------------- tables

  function KeyName(k: Key): string {
    match k
    case ClassKey => "class" case BusKey => "bus" case DriverKey => "driver" case DetachedKey => "detached"
    case DeviceKey => "device" case DescKey => "desc" case HwaddrKey => "network.hwaddr"
    case XdriverKey => "video.xdriver" case VendorIdKey => "vendorId" case DeviceIdKey => "deviceId"
    case PciTypeKey => "pciType" case SubVendorIdKey => "subVendorId" case SubDeviceIdKey => "subDeviceId"
    case PcidomKey => "pcidom" case PcibusKey => "pcibus" case PcidevKey => "pcidev" case PcifnKey => "pcifn"
    case HostKey => "host" case ChannelKey => "channel" case IdKey => "id" case LunKey => "lun"
    case HorizSyncMinKey => "horizSyncMin" case HorizSyncMaxKey => "horizSyncMax"
    case VertRefreshMinKey => "vertRefreshMin" case VertRefreshMaxKey => "vertRefreshMax"
    case ModeKey => "mode" case MemKey => "mem"
    case UsbclassKey => "usbclass" case UsbsubclassKey => "usbsubclass" case UsbprotocolKey => "usbprotocol"
    case UsbbusKey => "usbbus" case UsblevelKey => "usblevel" case UsbportKey => "usbport"
    case UsbdevKey => "usbdev" case UsbmfrKey => "usbmfr" case UsbprodKey => "usbprod"
  }

  function ClassName(c: Class): string {
    match c
    case UnspecClass => "UNSPEC" case OtherClass => "OTHER" case Network => "NETWORK"
    case ScsiClass => "SCSI" case Mouse => "MOUSE" case Audio => "AUDIO" case Cdrom => "CDROM"
    case Modem => "MODEM" case Video => "VIDEO" case Tape => "TAPE" case Floppy => "FLOPPY"
    case Scanner => "SCANNER" case Hd => "HD" case Raid => "RAID" case Printer => "PRINTER"
    case Capture => "CAPTURE" case KeyboardClass => "KEYBOARD" case Monitor => "MONITOR"
    case UsbClass => "USB" case Socket => "SOCKET" case FirewireClass => "FIREWIRE" case IdeClass => "IDE"
  }

  function BusName(b: Bus): string {
    match b
    case UnspecBus => "UNSPEC" case OtherBus => "OTHER" case PciBus => "PCI" case Sbus => "SBUS"
    case UsbBus => "USB" case Psaux => "PSAUX" case Serial => "SERIAL" case Parallel => "PARALLEL"
    case ScsiBus => "SCSI" case IdeBus => "IDE" case KeyboardBus => "KEYBOARD" case DdcBus => "DDC"
    case Isapnp => "ISAPNP" case Misc => "MISC" case FirewireBus => "FIREWIRE" case Pcmcia => "PCMCIA"
    case Adb => "ADB" case Macio => "MACIO" case Vio => "VIO" case S390 => "S390" case Xen => "XEN"
  }

  const CLASSES: seq<Class> :=
    [UnspecClass, OtherClass, Network, ScsiClass, Mouse, Audio, Cdrom, Modem, Video, Tape, Floppy, Scanner,
     Hd, Raid, Printer, Capture, KeyboardClass, Monitor, UsbClass, Socket, FirewireClass, IdeClass]

  const BUSES: seq<Bus> :=
    [UnspecBus, OtherBus, PciBus, Sbus, UsbBus, Psaux, Serial, Parallel, ScsiBus, IdeBus, KeyboardBus,
     DdcBus, Isapnp, Misc, FirewireBus, Pcmcia, Adb, Macio, Vio, S390, Xen]

  // The first entry with this name; an unknown class is OTHER.
  function ClassNamed(s: string, from: seq<Class>): Class {
    if from == [] then OtherClass else if ClassName(from[0]) == s then from[0] else ClassNamed(s, from[1..])
  }

  function BusNamed(s: string, from: seq<Bus>): Option<Bus> {
    if from == [] then None else if BusName(from[0]) == s then Some(from[0]) else BusNamed(s, from[1..])
  }

  function BusOf(p: Payload): Bus {
    match p
    case Plain(b) => b
    case Pci(_) => PciBus
    case Usb(_) => UsbBus
    case Scsi(_) => ScsiBus
    case Ddc(_) => DdcBus
  }

  // ------------------------------------------------------- 32-bit conversions

  function U32(n: int): (u: nat) { n % 0x1_0000_0000 }

  function S32(n: int): int { if U32(n) < 0x8000_0000 then U32(n) else U32(n) - 0x1_0000_0000 }

  predicate IsU32(n: int) { 0 <= n < 0x1_0000_0000 }

  // ------------------------------------------------------------- written lines

  function Keyed(k: Key, value: string): string { KeyName(k) + ": " + value }

  // A device's own lines, none of them the one that separates devices.
  predicate NoSeparator(lines: seq<string>) { "-" !in lines }

  // `body` with one more line; a "%s" field left out when NULL; a "%d" field left out when zero.
  function Emit(body: seq<string>, k: Key, value: string): (c: seq<string>)
    ensures (NoSeparator(body) ==> NoSeparator(c)) && |c| > |body|
  {
    body + [Keyed(k, value)]
  }

  function EmitSome(body: seq<string>, k: Key, value: Option<string>): (c: seq<string>)
    ensures (NoSeparator(body) ==> NoSeparator(c)) && |c| >= |body|
  {
    if value.Some? then Emit(body, k, value.value) else body
  }

  function EmitNonzero(body: seq<string>, k: Key, n: int): (c: seq<string>)
    ensures (NoSeparator(body) ==> NoSeparator(c)) && |c| >= |body|
  {
    if n != 0 then Emit(body, k, PrintInt(n)) else body
  }

  // printf prints a NULL description as "(null)".
  function Described(desc: Option<string>): string {
    "\"" + (if desc.Some? then desc.value else "(null)") + "\""
  }

  function CommonBody(r: Record): (c: seq<string>)
    ensures NoSeparator(c) && c != []
  {
    var b := Emit([], ClassKey, ClassName(r.cls));
    var b := Emit(b, BusKey, BusName(BusOf(r.payload)));
    var b := Emit(b, DetachedKey, PrintInt(r.detached));
    var b := EmitSome(b, DeviceKey, r.device);
    var b := EmitSome(b, DriverKey, r.driver);
    var b := Emit(b, DescKey, Described(r.desc));
    if r.cls == Network then EmitSome(b, HwaddrKey, r.private)
    else if r.cls == Video then EmitSome(b, XdriverKey, r.private)
    else b
  }

  function Hex4(n: int): string { PrintHex(U32(n), 4, '0') }

  function PciBody(b: seq<string>, p: PciFields): (c: seq<string>)
    ensures (NoSeparator(b) ==> NoSeparator(c)) && |c| >= |b|
  {
    var b := Emit(b, VendorIdKey, Hex4(p.vendorId));
    var b := Emit(b, DeviceIdKey, Hex4(p.deviceId));
    var b := Emit(b, SubVendorIdKey, Hex4(p.subVendorId));
    var b := Emit(b, SubDeviceIdKey, Hex4(p.subDeviceId));
    var b := Emit(b, PciTypeKey, PrintInt(p.pciType));
    var b := Emit(b, PcidomKey, PrintHex(U32(p.pcidom), 4, ' '));
    var b := Emit(b, PcibusKey, PrintHex(U32(p.pcibus), 2, ' '));
    var b := Emit(b, PcidevKey, PrintHex(U32(p.pcidev), 2, ' '));
    Emit(b, PcifnKey, PrintHex(U32(p.pcifn), 2, ' '))
  }

  function UsbBody(b: seq<string>, p: UsbFields): (c: seq<string>)
    ensures (NoSeparator(b) ==> NoSeparator(c)) && |c| >= |b|
  {
    var b := Emit(b, UsbclassKey, PrintInt(p.usbclass));
    var b := Emit(b, UsbsubclassKey, PrintInt(p.usbsubclass));
    var b := Emit(b, UsbprotocolKey, PrintInt(p.usbprotocol));
    var b := Emit(b, UsbbusKey, PrintInt(p.usbbus));
    var b := Emit(b, UsblevelKey, PrintInt(p.usblevel));
    var b := Emit(b, UsbportKey, PrintInt(p.usbport));
    var b := Emit(b, UsbdevKey, PrintInt(p.usbdev));
    var b := Emit(b, VendorIdKey, Hex4(p.vendorId));
    var b := Emit(b, DeviceIdKey, Hex4(p.deviceId));
    var b := EmitSome(b, UsbmfrKey, p.usbmfr);
    EmitSome(b, UsbprodKey, p.usbprod)
  }

  function ScsiBody(b: seq<string>, p: ScsiFields): (c: seq<string>)
    ensures (NoSeparator(b) ==> NoSeparator(c)) && |c| >= |b|
  {
    var b := Emit(b, HostKey, PrintInt(S32(p.host)));
    var b := Emit(b, IdKey, PrintInt(S32(p.id)));
    var b := Emit(b, ChannelKey, PrintInt(S32(p.channel)));
    Emit(b, LunKey, PrintInt(S32(p.lun)))
  }

  // From x on, widths and heights up to the zero width that is the end.
  predicate ModesEnd(modes: seq<int>, x: nat)
    decreases |modes| - x
  {
    x < |modes| && if modes[x] == 0 then x + 1 == |modes| else x + 2 < |modes| && ModesEnd(modes, x + 2)
  }

  function ModeText(w: int, h: int): string { PrintInt(w) + "x" + PrintInt(h) }

  function ModesBody(b: seq<string>, modes: seq<int>, x: nat): (c: seq<string>)
    requires ModesEnd(modes, x)
    ensures (NoSeparator(b) ==> NoSeparator(c)) && |c| >= |b|
    decreases |modes| - x
  {
    if modes[x] == 0 then b else ModesBody(Emit(b, ModeKey, ModeText(modes[x], modes[x + 1])), modes, x + 2)
  }

  // What the writer relies on in memory: a mode array that is there has its end.
  predicate Ended(p: DdcFields) { p.modes != [] ==> ModesEnd(p.modes, 0) }

  function DdcBody(b: seq<string>, p: DdcFields): (c: seq<string>)
    requires Ended(p)
    ensures (NoSeparator(b) ==> NoSeparator(c)) && |c| >= |b|
  {
    var b := EmitSome(b, IdKey, p.id);
    var b := EmitNonzero(b, HorizSyncMinKey, p.horizSyncMin);
    var b := EmitNonzero(b, HorizSyncMaxKey, p.horizSyncMax);
    var b := EmitNonzero(b, VertRefreshMinKey, p.vertRefreshMin);
    var b := EmitNonzero(b, VertRefreshMaxKey, p.vertRefreshMax);
    var b := if p.modes != [] then ModesBody(b, p.modes, 0) else b;
    EmitNonzero(b, MemKey, p.mem)
  }

  // Buses whose devices have no fields of their own.
  predicate Fieldless(b: Bus) { b in {Psaux, KeyboardBus, Misc, FirewireBus, Adb, Macio, Vio, S390, Xen} }

  predicate Writable(r: Record) {
    (r.payload.Plain? ==> Fieldless(r.payload.bus)) && (r.payload.Ddc? ==> Ended(r.payload.ddc))
  }

  // The lines of a device behind its separator.
  function Body(r: Record): (c: seq<string>)
    requires Writable(r)
    ensures NoSeparator(c) && c != []
  {
    match r.payload
    case Plain(_) => CommonBody(r)
    case Pci(p) => PciBody(CommonBody(r), p)
    case Usb(p) => UsbBody(CommonBody(r), p)
    case Scsi(p) => ScsiBody(CommonBody(r), p)
    case Ddc(p) => DdcBody(CommonBody(r), p)
  }

  // The lines of all the devices.
  function FileLines(rs: seq<Record>): seq<string>
    requires forall r :: r in rs ==> Writable(r)
  {
    if rs == [] then [] else ["-"] + Body(rs[0]) + FileLines(rs[1..])
  }

  function Unlines(lines: seq<string>): string {
    if lines == [] then "" else lines[0] + "\n" + Unlines(lines[1..])
  }

  // -------------------------------------------------------------- read lines

  function IndexFrom(s: string, c: char): (i: nat)
    ensures i <= |s| && (i < |s| ==> s[i] == c) && forall k :: 0 <= k < i ==> s[k] != c
  {
    if s == [] || s[0] == c then 0 else 1 + IndexFrom(s[1..], c)
  }

  // One past the last c in s; 0 if there is none.
  function LastIndex(s: string, c: char): (i: nat)
    ensures i <= |s| && (i > 0 ==> s[i - 1] == c) && forall k :: i <= k < |s| ==> s[k] != c
  {
    if s == [] then 0 else if s[|s| - 1] == c then |s| else LastIndex(s[..|s| - 1], c)
  }

  // The lines of a text, without their newlines.
  function Split(text: string): seq<string>
    decreases |text|
  {
    if text == "" then []
    else
      var i := IndexFrom(text, '\n');
      if i < |text| then [text[..i]] + Split(text[i + 1..]) else [text]
  }

  // !strncmp(linebuf, "key:", strlen("key:"))
  predicate HasKey(line: string, k: Key) { KeyName(k) + ":" <= line }

  // linebuf + n; the buffer is zero behind the line.
  function Tail(line: string, n: nat): string { if n <= |line| then line[n..] else "" }

  // What follows "key: ".
  function Rest(line: string, k: Key): string { Tail(line, |KeyName(k)| + 2) }

  function IntAt(line: string, k: Key): int { ParseInt(Rest(line, k)) }

  function HexAt(line: string, k: Key): int { ParseHex(Rest(line, k)) }

  // The description between the first and the last quote, or the rest of the line.
  function DescOf(line: string): string {
    var first, last := IndexFrom(line, '\"'), LastIndex(line, '\"');
    if first < |line| && last != first + 1 then line[first + 1..last - 1] else Rest(line, DescKey)
  }

  function FreshPayload(b: Bus): Payload {
    match b
    case PciBus => Pci(PciFields(0, 0, 0, 0xffff, 0, 0, 0, 0, 0))
    case UsbBus => Usb(UsbFields(0, 0, 0, 0, 0, 0, 0, 0, 0, None, None))
    case ScsiBus => Scsi(ScsiFields(0, 0, 0, 0))
    case DdcBus => Ddc(DdcFields(None, 0, 0, 0, 0, [], 0))
    case _ => Plain(b)
  }

  // The record a bus constructor makes of the one read so far.
  function Rebuilt(r: Record, b: Bus): Record {
    r.(private := None, payload := if BusOf(r.payload) == b then r.payload else FreshPayload(b))
  }

  // A bus line: the record of that bus, or the same record on an unknown bus.
  function OnBus(r: Record, b: Option<Bus>): Record {
    if b.Some? then Rebuilt(r, b.value) else r.(payload := Plain(OtherBus))
  }

  function ParseCommon(r: Record, line: string): Record {
    if HasKey(line, ClassKey) then r.(cls := ClassNamed(Rest(line, ClassKey), CLASSES))
    else if HasKey(line, BusKey) then OnBus(r, BusNamed(Rest(line, BusKey), BUSES))
    else if HasKey(line, DriverKey) then r.(driver := Some(Rest(line, DriverKey)))
    else if HasKey(line, DetachedKey) then r.(detached := IntAt(line, DetachedKey))
    else if HasKey(line, DeviceKey) then r.(device := Some(Rest(line, DeviceKey)))
    else if HasKey(line, DescKey) then r.(desc := Some(DescOf(line)))
    else if r.cls == Network && HasKey(line, HwaddrKey) then r.(private := Some(Rest(line, HwaddrKey)))
    else if r.cls == Video && HasKey(line, XdriverKey) then r.(private := Some(Rest(line, XdriverKey)))
    else r
  }

  function ParsePci(p: PciFields, line: string): PciFields {
    if HasKey(line, VendorIdKey) then p.(vendorId := U32(HexAt(line, VendorIdKey)))
    else if HasKey(line, DeviceIdKey) then p.(deviceId := U32(HexAt(line, DeviceIdKey)))
    else if HasKey(line, PciTypeKey) then p.(pciType := IntAt(line, PciTypeKey))
    else if HasKey(line, SubVendorIdKey) then p.(subVendorId := U32(HexAt(line, SubVendorIdKey)))
    else if HasKey(line, SubDeviceIdKey) then p.(subDeviceId := U32(HexAt(line, SubDeviceIdKey)))
    else if HasKey(line, PcidomKey) then p.(pcidom := U32(HexAt(line, PcidomKey)))
    else if HasKey(line, PcibusKey) then p.(pcibus := U32(HexAt(line, PcibusKey)))
    else if HasKey(line, PcidevKey) then p.(pcidev := U32(HexAt(line, PcidevKey)))
    else if HasKey(line, PcifnKey) then p.(pcifn := U32(HexAt(line, PcifnKey)))
    else p
  }

  // Fields that one line sets or leaves as they were.
  function IntOr(line: string, k: Key, n: int): int { if HasKey(line, k) then IntAt(line, k) else n }

  function UnsignedOr(line: string, k: Key, n: int): int { if HasKey(line, k) then U32(IntAt(line, k)) else n }

  function HexOr(line: string, k: Key, n: int): int { if HasKey(line, k) then S32(HexAt(line, k)) else n }

  function SomeOr(line: string, k: Key, s: Option<string>): Option<string> {
    if HasKey(line, k) then Some(Rest(line, k)) else s
  }

  function ParseScsi(p: ScsiFields, line: string): ScsiFields {
    ScsiFields(UnsignedOr(line, HostKey, p.host), UnsignedOr(line, ChannelKey, p.channel),
               UnsignedOr(line, IdKey, p.id), UnsignedOr(line, LunKey, p.lun))
  }

  // What follows the first 'x' of the line.
  function AfterX(line: string): string { Tail(line, IndexFrom(line, 'x') + 1) }

  // The mode array, its terminator overwritten, with one more mode.
  function PlusMode(modes: seq<int>, w: int, h: int): seq<int> {
    (if modes == [] then [] else modes[..|modes| - 1]) + [w, h, 0]
  }

  function ModesOr(line: string, modes: seq<int>): seq<int> {
    if HasKey(line, ModeKey) then PlusMode(modes, IntAt(line, ModeKey), ParseInt(AfterX(line))) else modes
  }

  function ParseDdc(p: DdcFields, line: string): DdcFields {
    DdcFields(SomeOr(line, IdKey, p.id), IntOr(line, HorizSyncMinKey, p.horizSyncMin),
              IntOr(line, HorizSyncMaxKey, p.horizSyncMax), IntOr(line, VertRefreshMinKey, p.vertRefreshMin),
              IntOr(line, VertRefreshMaxKey, p.vertRefreshMax), ModesOr(line, p.modes), IntOr(line, MemKey, p.mem))
  }

  function ParseUsb(p: UsbFields, line: string): UsbFields {
    UsbFields(IntOr(line, UsbclassKey, p.usbclass), IntOr(line, UsbsubclassKey, p.usbsubclass),
              IntOr(line, UsbprotocolKey, p.usbprotocol), IntOr(line, UsbbusKey, p.usbbus),
              IntOr(line, UsblevelKey, p.usblevel), IntOr(line, UsbportKey, p.usbport),
              IntOr(line, UsbdevKey, p.usbdev), HexOr(line, VendorIdKey, p.vendorId),
              HexOr(line, DeviceIdKey, p.deviceId), SomeOr(line, UsbmfrKey, p.usbmfr),
              SomeOr(line, UsbprodKey, p.usbprod))
  }

  function ParsePayload(p: Payload, line: string): Payload {
    match p
    case Plain(_) => p
    case Pci(q) => Pci(ParsePci(q, line))
    case Usb(q) => Usb(ParseUsb(q, line))
    case Scsi(q) => Scsi(ParseScsi(q, line))
    case Ddc(q) => Ddc(ParseDdc(q, line))
  }

  // One line of readDevice: the common keys, then those of the bus known by then.
  function ParseLine(r: Record, line: string): Record {
    var c := ParseCommon(r, line);
    c.(payload := ParsePayload(c.payload, line))
  }

  // A record before its first line; the model gives it the bus UNSPEC for the zero it holds.
  const EMPTY: Record := Record(UnspecClass, None, None, None, 0, None, Plain(UnspecBus))

  datatype ReadResult = ReadResult(record: Option<Record>, rest: seq<string>)

  // readDevice: lines up to a separator or the end of the file.
  function ReadOne(lines: seq<string>, sofar: Option<Record>): ReadResult
    decreases |lines|
  {
    if lines == [] then ReadResult(sofar, [])
    else if lines[0] == "-" then ReadResult(sofar, lines[1..])
    else ReadOne(lines[1..], Some(ParseLine(if sofar.Some? then sofar.value else EMPTY, lines[0])))
  }

  function SkipToSeparator(lines: seq<string>): Option<seq<string>> {
    if lines == [] then None
    else if lines[0] == "-" then Some(lines[1..])
    else SkipToSeparator(lines[1..])
  }

  lemma {:induction false} ReadOneShrinks(lines: seq<string>, sofar: Option<Record>)
    ensures |ReadOne(lines, sofar).rest| <= |lines|
    ensures ReadOne(lines, sofar).record.Some? && sofar.None? ==> |ReadOne(lines, sofar).rest| < |lines|
    decreases |lines|
  {
    if lines != [] && lines[0] != "-" {
      ReadOneShrinks(lines[1..], Some(ParseLine(if sofar.Some? then sofar.value else EMPTY, lines[0])));
    }
  }

  // The loop of readDevs: records until readDevice returns none.
  function ReadAll(lines: seq<string>): seq<Record>
    decreases |lines|
  {
    var one := ReadOne(lines, None);
    ReadOneShrinks(lines, None);
    if one.record.None? then [] else [one.record.value] + ReadAll(one.rest)
  }

  // readDevs, before the sort; None is the NULL it returns without a separator.
  function ReadFile(lines: seq<string>): Option<seq<Record>> {
    var body := SkipToSeparator(lines);
    if body.None? then None else Some(ReadAll(body.value))
  }

  const BUFFER := 512

  // What fgets takes of a text: its first line with the newline, as far as the buffer goes.
  function Taken(text: string): (n: nat)
    ensures n <= |text| && n < BUFFER && (text != "" ==> n > 0)
  {
    var i := IndexFrom(text, '\n');
    if i + 1 < BUFFER then (if i < |text| then i + 1 else |text|)
    else if |text| < BUFFER then |text| else BUFFER - 1
  }

  // What follows the first separator, on a text with lines of any length.
  function AfterSeparator(text: string): (rest: Option<string>)
    ensures rest.Some? ==> |rest.value| < |text|
    decreases |text|
  {
    if text == "" then None
    else
      var n := Taken(text);
      if text[..n] == "-\n" then Some(text[n..]) else AfterSeparator(text[n..])
  }

  // The same reading of a text as readDevs does.
  function ReadText(text: string): Option<seq<Record>> {
    var body := AfterSeparator(text);
    if body.None? then None else Some(ReadAll(Split(body.value)))
  }

  // A text that the readers' buffer and string functions are made for: every line ends,
  // fits the buffer and holds no NUL.
  predicate Readable(text: string) {
    (text == "" || text[|text| - 1] == '\n')
    && (forall i :: 0 <= i < |text| ==> text[i] != 0 as char)
    && forall line :: line in Split(text) ==> |line| + 2 <= 512
  }
}
