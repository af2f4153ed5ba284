// The text of the hwconf file, character by character, and what is read from lines that
// the writers do not write.
module HwConfText {
  import opened Common
  import opened Text
  import opened Numerals
  import opened HwConf

  // --------------------------------------------------------------- written lines

  // A line of `head` and an integer as "%d" prints it.
  predicate IntLine(line: string, head: string, n: int) {
    head <= line && Integer(line[|head|..], n)
  }

  // A line of `head` and a word in hexadecimal, filled to the width with `pad`.
  predicate HexLine(line: string, head: string, n: nat, width: nat, pad: char) {
    head <= line && Padded(line[|head|..], n, 16, width, pad)
  }

  lemma IntLineIs(line: string, head: string, n: int)
    requires line == head + PrintInt(n)
    ensures IntLine(line, head, n)
  {
    PrintIntIs(n);
    assert line[|head|..] == PrintInt(n);
  }

  lemma HexLineIs(line: string, head: string, n: nat, width: nat, pad: char)
    requires line == head + PrintHex(n, width, pad)
    ensures HexLine(line, head, n, width, pad)
  {
    PrintHexIs(n, width, pad);
    assert line[|head|..] == PrintHex(n, width, pad);
  }

  // The words of PCI and USB identifiers: four digits, more only if needed.
  lemma Hex4Is(n: int)
    ensures Padded(Hex4(n), n % 0x1_0000_0000, 16, 4, '0')
    ensures 0 <= n < 0x1_0000 ==>
      |Hex4(n)| == 4 && (forall i :: 0 <= i < 4 ==> Hex4(n)[i] in DIGITS) && Worth(Hex4(n), 16) == n
  {
    hide PrintHex, Padded, Worth;
    PrintHexIs(U32(n), 4, '0');
    if 0 <= n < 0x1_0000 { FourDigits(Hex4(n), n); }
  }

  function Optional(head: string, value: Option<string>): seq<string> {
    if value.Some? then [head + value.value] else []
  }

  // The lines that every device has. A NULL description is printed as "(null)".
  lemma CommonLines(r: Record)
    ensures var ls := CommonBody(r);
            && |ls| > 3
            && ls[0] == "class: " + ClassName(r.cls) && ls[1] == "bus: " + BusName(BusOf(r.payload))
            && IntLine(ls[2], "detached: ", r.detached)
            && ls[3..] == Optional("device: ", r.device) + Optional("driver: ", r.driver)
                        + ["desc: \"" + (if r.desc.Some? then r.desc.value else "(null)") + "\""]
                        + (if r.cls == Network then Optional("network.hwaddr: ", r.private) else [])
                        + (if r.cls == Video then Optional("video.xdriver: ", r.private) else [])
  {
    hide Emit, EmitSome, KeyName, ClassName, BusName, PrintInt, IntLine, Described, Optional;
    var b3 := FirstLines(r);
    var b4 := EmitSome(b3, DeviceKey, r.device);
    var b5 := EmitSome(b4, DriverKey, r.driver);
    var b6 := Emit(b5, DescKey, Described(r.desc));
    CommonKeys();
    EmitSomeIs(b3, DeviceKey, "device: ", r.device);
    EmitSomeIs(b4, DriverKey, "driver: ", r.driver);
    EmitIs(b5, DescKey, "desc: ", Described(r.desc));
    DescribedIs(r.desc);
    PrivateLines(r, b6);
  }

  lemma PrivateLines(r: Record, b: seq<string>)
    requires CommonBody(r) == if r.cls == Network then EmitSome(b, HwaddrKey, r.private)
                              else if r.cls == Video then EmitSome(b, XdriverKey, r.private) else b
    ensures CommonBody(r)
         == b + (if r.cls == Network then Optional("network.hwaddr: ", r.private) else [])
              + (if r.cls == Video then Optional("video.xdriver: ", r.private) else [])
  {
    hide EmitSome, KeyName, CommonBody, Optional;
    CommonKeys();
    EmitSomeIs(b, HwaddrKey, "network.hwaddr: ", r.private);
    EmitSomeIs(b, XdriverKey, "video.xdriver: ", r.private);
  }

  lemma FirstLines(r: Record) returns (b: seq<string>)
    ensures b == Emit(Emit(Emit([], ClassKey, ClassName(r.cls)), BusKey, BusName(BusOf(r.payload))), DetachedKey,
                      PrintInt(r.detached))
    ensures |b| == 3 && b[0] == "class: " + ClassName(r.cls) && b[1] == "bus: " + BusName(BusOf(r.payload))
    ensures IntLine(b[2], "detached: ", r.detached)
  {
    hide Emit, KeyName, ClassName, BusName, PrintInt, IntLine;
    CommonKeys();
    var b1 := Emit([], ClassKey, ClassName(r.cls));
    var b2 := Emit(b1, BusKey, BusName(BusOf(r.payload)));
    b := Emit(b2, DetachedKey, PrintInt(r.detached));
    EmitIs([], ClassKey, "class: ", ClassName(r.cls));
    EmitIs(b1, BusKey, "bus: ", BusName(BusOf(r.payload)));
    EmitIs(b2, DetachedKey, "detached: ", PrintInt(r.detached));
    IntLineIs(b[2], "detached: ", r.detached);
  }

  lemma DescribedIs(desc: Option<string>)
    ensures "desc: " + Described(desc) == "desc: \"" + (if desc.Some? then desc.value else "(null)") + "\""
  {
  }

  lemma EmitIs(b: seq<string>, k: Key, head: string, v: string)
    requires KeyName(k) + ": " == head
    ensures Emit(b, k, v) == b + [head + v]
  {
    hide KeyName;
  }

  lemma EmitSomeIs(b: seq<string>, k: Key, head: string, v: Option<string>)
    requires KeyName(k) + ": " == head
    ensures EmitSome(b, k, v) == b + Optional(head, v)
  {
    hide KeyName;
  }

  lemma EmitNonzeroIs(b: seq<string>, k: Key, head: string, n: int)
    requires KeyName(k) + ": " == head
    ensures EmitNonzero(b, k, n) == b + Nonzero(head, n)
  {
    hide KeyName, PrintInt;
  }

  lemma CommonKeys()
    ensures KeyName(ClassKey) + ": " == "class: " && KeyName(BusKey) + ": " == "bus: "
    ensures KeyName(DetachedKey) + ": " == "detached: " && KeyName(DeviceKey) + ": " == "device: "
    ensures KeyName(DriverKey) + ": " == "driver: " && KeyName(DescKey) + ": " == "desc: "
    ensures KeyName(HwaddrKey) + ": " == "network.hwaddr: " && KeyName(XdriverKey) + ": " == "video.xdriver: "
  {
  }

  // What a PCI device adds.
  lemma PciLines(b: seq<string>, p: PciFields)
    ensures var ls, n := PciBody(b, p), |b|;
            && |ls| == n + 9 && ls[..n] == b
            && HexLine(ls[n], "vendorId: ", p.vendorId % 0x1_0000_0000, 4, '0')
            && HexLine(ls[n + 1], "deviceId: ", p.deviceId % 0x1_0000_0000, 4, '0')
            && HexLine(ls[n + 2], "subVendorId: ", p.subVendorId % 0x1_0000_0000, 4, '0')
            && HexLine(ls[n + 3], "subDeviceId: ", p.subDeviceId % 0x1_0000_0000, 4, '0')
            && IntLine(ls[n + 4], "pciType: ", p.pciType)
            && HexLine(ls[n + 5], "pcidom: ", p.pcidom % 0x1_0000_0000, 4, ' ')
            && HexLine(ls[n + 6], "pcibus: ", p.pcibus % 0x1_0000_0000, 2, ' ')
            && HexLine(ls[n + 7], "pcidev: ", p.pcidev % 0x1_0000_0000, 2, ' ')
            && HexLine(ls[n + 8], "pcifn: ", p.pcifn % 0x1_0000_0000, 2, ' ')
  {
    hide PrintHex, PrintInt, KeyName, IntLine, HexLine;
    var ls, n := PciBody(b, p), |b|;
    PciKeys();
    HexLineIs(ls[n], "vendorId: ", U32(p.vendorId), 4, '0');
    HexLineIs(ls[n + 1], "deviceId: ", U32(p.deviceId), 4, '0');
    HexLineIs(ls[n + 2], "subVendorId: ", U32(p.subVendorId), 4, '0');
    HexLineIs(ls[n + 3], "subDeviceId: ", U32(p.subDeviceId), 4, '0');
    IntLineIs(ls[n + 4], "pciType: ", p.pciType);
    HexLineIs(ls[n + 5], "pcidom: ", U32(p.pcidom), 4, ' ');
    HexLineIs(ls[n + 6], "pcibus: ", U32(p.pcibus), 2, ' ');
    HexLineIs(ls[n + 7], "pcidev: ", U32(p.pcidev), 2, ' ');
    HexLineIs(ls[n + 8], "pcifn: ", U32(p.pcifn), 2, ' ');
  }

  lemma PciKeys()
    ensures KeyName(VendorIdKey) + ": " == "vendorId: " && KeyName(DeviceIdKey) + ": " == "deviceId: "
    ensures KeyName(SubVendorIdKey) + ": " == "subVendorId: " && KeyName(SubDeviceIdKey) + ": " == "subDeviceId: "
    ensures KeyName(PciTypeKey) + ": " == "pciType: " && KeyName(PcidomKey) + ": " == "pcidom: "
    ensures KeyName(PcibusKey) + ": " == "pcibus: " && KeyName(PcidevKey) + ": " == "pcidev: "
    ensures KeyName(PcifnKey) + ": " == "pcifn: "
  {
  }

  // What a USB device adds.
  lemma UsbLines(b: seq<string>, p: UsbFields)
    ensures var ls, n := UsbBody(b, p), |b|;
            && |ls| >= n + 9 && ls[..n] == b
            && IntLine(ls[n], "usbclass: ", p.usbclass) && IntLine(ls[n + 1], "usbsubclass: ", p.usbsubclass)
            && IntLine(ls[n + 2], "usbprotocol: ", p.usbprotocol) && IntLine(ls[n + 3], "usbbus: ", p.usbbus)
            && IntLine(ls[n + 4], "usblevel: ", p.usblevel) && IntLine(ls[n + 5], "usbport: ", p.usbport)
            && IntLine(ls[n + 6], "usbdev: ", p.usbdev)
            && HexLine(ls[n + 7], "vendorId: ", p.vendorId % 0x1_0000_0000, 4, '0')
            && HexLine(ls[n + 8], "deviceId: ", p.deviceId % 0x1_0000_0000, 4, '0')
            && ls[n + 9..] == Optional("usbmfr: ", p.usbmfr) + Optional("usbprod: ", p.usbprod)
  {
    hide PrintHex, PrintInt, KeyName, IntLine, HexLine;
    var ls, n := UsbBody(b, p), |b|;
    UsbKindKeys();
    UsbPlaceKeys();
    UsbNameKeys();
    PciKeys();
    IntLineIs(ls[n], "usbclass: ", p.usbclass);
    IntLineIs(ls[n + 1], "usbsubclass: ", p.usbsubclass);
    IntLineIs(ls[n + 2], "usbprotocol: ", p.usbprotocol);
    IntLineIs(ls[n + 3], "usbbus: ", p.usbbus);
    IntLineIs(ls[n + 4], "usblevel: ", p.usblevel);
    IntLineIs(ls[n + 5], "usbport: ", p.usbport);
    IntLineIs(ls[n + 6], "usbdev: ", p.usbdev);
    HexLineIs(ls[n + 7], "vendorId: ", U32(p.vendorId), 4, '0');
    HexLineIs(ls[n + 8], "deviceId: ", U32(p.deviceId), 4, '0');
  }

  lemma UsbKindKeys()
    ensures KeyName(UsbclassKey) + ": " == "usbclass: " && KeyName(UsbsubclassKey) + ": " == "usbsubclass: "
    ensures KeyName(UsbprotocolKey) + ": " == "usbprotocol: "
  {
  }

  lemma UsbPlaceKeys()
    ensures KeyName(UsbbusKey) + ": " == "usbbus: " && KeyName(UsblevelKey) + ": " == "usblevel: "
    ensures KeyName(UsbportKey) + ": " == "usbport: " && KeyName(UsbdevKey) + ": " == "usbdev: "
  {
  }

  lemma UsbNameKeys()
    ensures KeyName(UsbmfrKey) + ": " == "usbmfr: " && KeyName(UsbprodKey) + ": " == "usbprod: "
  {
  }

  // A word of 32 bits as "%d" prints it.
  predicate SignedLine(line: string, head: string, n: int) {
    var m := n % 0x1_0000_0000;
    IntLine(line, head, if m < 0x8000_0000 then m else m - 0x1_0000_0000)
  }

  // What a SCSI device adds.
  lemma ScsiLines(b: seq<string>, p: ScsiFields)
    ensures var ls, n := ScsiBody(b, p), |b|;
            && |ls| == n + 4 && ls[..n] == b
            && SignedLine(ls[n], "host: ", p.host) && SignedLine(ls[n + 1], "id: ", p.id)
            && SignedLine(ls[n + 2], "channel: ", p.channel) && SignedLine(ls[n + 3], "lun: ", p.lun)
  {
    hide PrintInt, KeyName;
    var ls, n := ScsiBody(b, p), |b|;
    ScsiKeys();
    IntLineIs(ls[n], "host: ", S32(p.host));
    IntLineIs(ls[n + 1], "id: ", S32(p.id));
    IntLineIs(ls[n + 2], "channel: ", S32(p.channel));
    IntLineIs(ls[n + 3], "lun: ", S32(p.lun));
  }

  lemma ScsiKeys()
    ensures KeyName(HostKey) + ": " == "host: " && KeyName(ChannelKey) + ": " == "channel: "
    ensures KeyName(IdKey) + ": " == "id: " && KeyName(LunKey) + ": " == "lun: "
  {
  }

  lemma MonitorKeys()
    ensures KeyName(IdKey) + ": " == "id: " && KeyName(ModeKey) + ": " == "mode: " && KeyName(MemKey) + ": " == "mem: "
    ensures KeyName(HorizSyncMinKey) + ": " == "horizSyncMin: " && KeyName(HorizSyncMaxKey) + ": " == "horizSyncMax: "
    ensures KeyName(VertRefreshMinKey) + ": " == "vertRefreshMin: "
    ensures KeyName(VertRefreshMaxKey) + ": " == "vertRefreshMax: "
  {
    SyncKeys();
  }

  lemma SyncKeys()
    ensures KeyName(HorizSyncMinKey) + ": " == "horizSyncMin: " && KeyName(HorizSyncMaxKey) + ": " == "horizSyncMax: "
    ensures KeyName(VertRefreshMinKey) + ": " == "vertRefreshMin: "
    ensures KeyName(VertRefreshMaxKey) + ": " == "vertRefreshMax: "
  {
  }

  // A line only for a value other than zero; PrintIntIs says what is printed.
  function Nonzero(head: string, n: int): seq<string> { if n == 0 then [] else [head + PrintInt(n)] }

  // One line for each width and height up to the zero.
  function ModeLines(modes: seq<int>): seq<string> {
    if |modes| < 2 || modes[0] == 0 then []
    else ["mode: " + PrintInt(modes[0]) + "x" + PrintInt(modes[1])] + ModeLines(modes[2..])
  }

  // What a monitor adds.
  lemma DdcLines(b: seq<string>, p: DdcFields)
    requires Ended(p)
    ensures DdcBody(b, p)
         == b + Optional("id: ", p.id)
            + Nonzero("horizSyncMin: ", p.horizSyncMin) + Nonzero("horizSyncMax: ", p.horizSyncMax)
            + Nonzero("vertRefreshMin: ", p.vertRefreshMin) + Nonzero("vertRefreshMax: ", p.vertRefreshMax)
            + ModeLines(p.modes) + Nonzero("mem: ", p.mem)
  {
    hide EmitSome, EmitNonzero, ModeLines, ModesBody, KeyName, Optional, Nonzero;
    MonitorKeys();
    var b1 := EmitSome(b, IdKey, p.id);
    var b2 := EmitNonzero(b1, HorizSyncMinKey, p.horizSyncMin);
    var b3 := EmitNonzero(b2, HorizSyncMaxKey, p.horizSyncMax);
    var b4 := EmitNonzero(b3, VertRefreshMinKey, p.vertRefreshMin);
    var b5 := EmitNonzero(b4, VertRefreshMaxKey, p.vertRefreshMax);
    var b6 := if p.modes != [] then ModesBody(b5, p.modes, 0) else b5;
    EmitSomeIs(b, IdKey, "id: ", p.id);
    EmitNonzeroIs(b1, HorizSyncMinKey, "horizSyncMin: ", p.horizSyncMin);
    EmitNonzeroIs(b2, HorizSyncMaxKey, "horizSyncMax: ", p.horizSyncMax);
    EmitNonzeroIs(b3, VertRefreshMinKey, "vertRefreshMin: ", p.vertRefreshMin);
    EmitNonzeroIs(b4, VertRefreshMaxKey, "vertRefreshMax: ", p.vertRefreshMax);
    EmitNonzeroIs(b6, MemKey, "mem: ", p.mem);
    if p.modes != [] { ModeLinesAre(b5, p.modes, 0); } else { NoModeLines(); }
  }

  lemma NoModeLines()
    ensures ModeLines([]) == []
  {
  }

  lemma {:induction false} ModeLinesAre(b: seq<string>, modes: seq<int>, x: nat)
    requires ModesEnd(modes, x)
    ensures ModesBody(b, modes, x) == b + ModeLines(modes[x..])
    decreases |modes| - x
  {
    hide PrintInt, KeyName;
    if modes[x] != 0 {
      MonitorKeys();
      var line := "mode: " + PrintInt(modes[x]) + "x" + PrintInt(modes[x + 1]);
      assert Keyed(ModeKey, ModeText(modes[x], modes[x + 1])) == line;
      ModeLinesAre(b + [line], modes, x + 2);
      assert modes[x..][2..] == modes[x + 2..];
    }
  }

  // The names of the tables.
  lemma GeneralClassNames()
    ensures ClassName(UnspecClass) == "UNSPEC" && ClassName(OtherClass) == "OTHER"
    ensures ClassName(Network) == "NETWORK" && ClassName(Modem) == "MODEM" && ClassName(UsbClass) == "USB"
    ensures ClassName(Socket) == "SOCKET" && ClassName(FirewireClass) == "FIREWIRE"
  {
  }

  lemma DiskClassNames()
    ensures ClassName(ScsiClass) == "SCSI" && ClassName(IdeClass) == "IDE" && ClassName(Cdrom) == "CDROM"
    ensures ClassName(Tape) == "TAPE" && ClassName(Floppy) == "FLOPPY" && ClassName(Hd) == "HD"
    ensures ClassName(Raid) == "RAID"
  {
  }

  lemma MediaClassNames()
    ensures ClassName(Mouse) == "MOUSE" && ClassName(Audio) == "AUDIO" && ClassName(Video) == "VIDEO"
    ensures ClassName(Scanner) == "SCANNER" && ClassName(Printer) == "PRINTER"
    ensures ClassName(Capture) == "CAPTURE" && ClassName(KeyboardClass) == "KEYBOARD"
    ensures ClassName(Monitor) == "MONITOR"
  {
  }

  lemma SlotBusNames()
    ensures BusName(PciBus) == "PCI" && BusName(Sbus) == "SBUS" && BusName(Isapnp) == "ISAPNP"
    ensures BusName(Pcmcia) == "PCMCIA" && BusName(Adb) == "ADB" && BusName(Macio) == "MACIO"
    ensures BusName(Vio) == "VIO"
  {
  }

  lemma CableBusNames()
    ensures BusName(UsbBus) == "USB" && BusName(Psaux) == "PSAUX" && BusName(Serial) == "SERIAL"
    ensures BusName(Parallel) == "PARALLEL" && BusName(ScsiBus) == "SCSI" && BusName(IdeBus) == "IDE"
    ensures BusName(FirewireBus) == "FIREWIRE"
  {
  }

  lemma OtherBusNames()
    ensures BusName(UnspecBus) == "UNSPEC" && BusName(OtherBus) == "OTHER" && BusName(KeyboardBus) == "KEYBOARD"
    ensures BusName(DdcBus) == "DDC" && BusName(Misc) == "MISC" && BusName(S390) == "S390"
    ensures BusName(Xen) == "XEN"
  {
  }

  // ------------------------------------------------------------------ read lines

  // The value on a line: what follows the colon and one more character, nothing if there
  // is no more than that.
  lemma ValueOnLine(k: Key, tail: string)
    ensures var line := KeyName(k) + ":" + tail;
            HasKey(line, k) && Rest(line, k) == if |tail| <= 1 then "" else tail[1..]
  {
    hide KeyName;
    var line := KeyName(k) + ":" + tail;
    if |tail| > 1 { assert line[|KeyName(k)| + 2..] == tail[1..]; }
  }

  // fgets takes a line with its newline, or what is left of the text, or 511 characters,
  // whatever ends first.
  lemma FgetsTakes(text: string)
    requires text != ""
    ensures var n := Taken(text);
            && 0 < n <= |text| && n <= 511 && (text[n - 1] == '\n' || n == |text| || n == 511)
            && forall k :: 0 <= k < n - 1 ==> text[k] != '\n'
  {
  }

  // An unknown class is OTHER, and an unknown bus is none that is known.
  lemma {:induction false} UnknownNames(s: string, classes: seq<Class>, buses: seq<Bus>)
    ensures (forall c :: c in classes ==> ClassName(c) != s) ==> ClassNamed(s, classes) == OtherClass
    ensures (forall b :: b in buses ==> BusName(b) != s) ==> BusNamed(s, buses) == None
    decreases |classes| + |buses|
  {
    hide ClassName, BusName;
    if classes != [] { UnknownNames(s, classes[1..], []); }
    if buses != [] { UnknownNames(s, [], buses[1..]); }
  }

  // What a bus line makes of the record so far: the common fields stay, but for the private
  // string; so do the fields of the bus, if it is the same one; else they are zero, but for
  // a subvendor that no PCI device has. On an unknown bus everything but those stays.
  lemma BusLineIs(r: Record, b: Bus)
    ensures var v := OnBus(r, Some(b));
            && v.(payload := r.payload) == r.(private := None)
            && (BusOf(r.payload) == b && b != DdcBus ==> v.payload == r.payload)
            && (BusOf(r.payload) != b ==>
                  match b
                  case PciBus => v.payload == Pci(PciFields(0, 0, 0, 65535, 0, 0, 0, 0, 0))
                  case UsbBus => v.payload == Usb(UsbFields(0, 0, 0, 0, 0, 0, 0, 0, 0, None, None))
                  case ScsiBus => v.payload == Scsi(ScsiFields(0, 0, 0, 0))
                  case DdcBus => v.payload == Ddc(DdcFields(None, 0, 0, 0, 0, [], 0))
                  case _ => v.payload == Plain(b))
    ensures OnBus(r, None) == r.(payload := Plain(OtherBus))
  {
  }

  // A separator with no line behind the one in front of it ends the reading, whatever follows.
  lemma EmptyRecordEnds(rest: seq<string>)
    ensures ReadAll(["-"] + rest) == [] && ReadAll([]) == []
  {
    assert (["-"] + rest)[0] == "-";
  }

  // A description between quotes is what stands between the first and the last of them; with
  // one quote or none it is the rest of the line.
  lemma DescIs(pre: string, mid: string, post: string)
    requires '\"' !in pre && '\"' !in post
    ensures DescOf("desc: " + pre + "\"" + mid + "\"" + post) == mid
    ensures DescOf("desc: " + pre) == pre
    ensures DescOf("desc: " + pre + "\"" + post) == pre + "\"" + post
  {
    hide IndexFrom, LastIndex, DescOf;
    var head := "desc: " + pre;
    assert '\"' !in head by { assert '\"' !in "desc: "; }
    NoQuotePair(head, head, [], false);
    NoQuotePair(head + "\"" + post, head, post, true);
    assert head[6..] == pre && (head + "\"" + post)[6..] == pre + "\"" + post;
    BetweenQuotes(head + "\"" + mid + "\"" + post, head, mid, post);
  }

  // With less than two quotes the description is the rest of the line.
  lemma NoQuotePair(line: string, head: string, post: string, quoted: bool)
    requires '\"' !in head && '\"' !in post && line == if quoted then head + "\"" + post else head + post
    requires |head| >= 6
    ensures DescOf(line) == line[6..]
  {
    Quotes(line, head, post, quoted);
    hide IndexFrom, LastIndex;
    assert |KeyName(DescKey)| == 4;
  }

  // The quotes of a line with one of them, or none.
  lemma Quotes(line: string, head: string, post: string, quoted: bool)
    requires '\"' !in head && '\"' !in post && line == if quoted then head + "\"" + post else head + post
    ensures if quoted then IndexFrom(line, '\"') == |head| && LastIndex(line, '\"') == |head| + 1
            else IndexFrom(line, '\"') == |line| && LastIndex(line, '\"') == 0
  {
    var first, last := IndexFrom(line, '\"'), LastIndex(line, '\"');
    forall k | 0 <= k < |line| ensures line[k] == '\"' <==> quoted && k == |head| {
      if k < |head| { assert line[k] == head[k]; }
      else if !quoted { assert line[k] == post[k - |head|]; }
      else if k > |head| { assert line[k] == post[k - |head| - 1]; }
    }
    if quoted { assert line[|head|] == '\"' && first <= |head| < last; }
  }

  lemma BetweenQuotes(line: string, head: string, mid: string, post: string)
    requires '\"' !in head && '\"' !in post && line == head + "\"" + mid + "\"" + post
    ensures DescOf(line) == mid
  {
    var first, last := IndexFrom(line, '\"'), LastIndex(line, '\"');
    var n := |head| + 1 + |mid|;
    assert line[|head|] == '\"' && line[n] == '\"';
    forall k | 0 <= k < |head| ensures line[k] != '\"' { assert line[k] == head[k]; }
    forall k | n < k < |line| ensures line[k] != '\"' { assert line[k] == post[k - n - 1]; }
    assert first == |head| && last == n + 1;
    assert line[|head| + 1..n] == mid;
  }
}
