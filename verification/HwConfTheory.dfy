// Reading the hwconf file undoes writing it.
module HwConfTheory {
  import opened Common
  import opened Text
  import opened HwConf
  import opened HwConfFiles

  // ------------------------------------------------------ names tell apart

  // The key whose name has this length, first, last and fourth character.
  function KeyMarked(n: nat, first: char, last: char, fourth: char): Key {
    if first == 'u' then
      if n == 6 then (if last == 's' then UsbbusKey else if last == 'v' then UsbdevKey else UsbmfrKey)
      else if n == 7 then (if last == 't' then UsbportKey else UsbprodKey)
      else if n == 8 then (if last == 's' then UsbclassKey else UsblevelKey)
      else if last == 's' then UsbsubclassKey else UsbprotocolKey
    else if first == 'p' then
      if n == 7 then PciTypeKey else if n == 5 then PcifnKey
      else if last == 'm' then PcidomKey else if last == 's' then PcibusKey else PcidevKey
    else if first == 'h' then
      if n == 4 then HostKey else if last == 'n' then HorizSyncMinKey else HorizSyncMaxKey
    else if first == 'v' then
      if n == 8 then VendorIdKey else if n == 13 then XdriverKey
      else if last == 'n' then VertRefreshMinKey else VertRefreshMaxKey
    else if first == 'd' then
      if n == 4 then DescKey else if last == 'r' then DriverKey else if last == 'e' then DeviceKey
      else if fourth == 'a' then DetachedKey else DeviceIdKey
    else if first == 's' then (if fourth == 'V' then SubVendorIdKey else SubDeviceIdKey)
    else if first == 'c' then (if last == 's' then ClassKey else ChannelKey)
    else if first == 'm' then (if n == 4 then ModeKey else MemKey)
    else if first == 'b' then BusKey
    else if first == 'n' then HwaddrKey
    else if first == 'i' then IdKey
    else LunKey
  }

  function MarkedKey(s: string): Key
    requires |s| >= 1
  {
    KeyMarked(|s|, s[0], s[|s| - 1], if |s| > 3 then s[3] else ' ')
  }

  predicate NoColon(s: string) { ':' !in s }

  predicate CommonKey(k: Key) {
    k in {ClassKey, BusKey, DriverKey, DetachedKey, DeviceKey, DescKey, HwaddrKey, XdriverKey}
  }

  predicate UsbKey(k: Key) {
    k in {UsbclassKey, UsbsubclassKey, UsbprotocolKey, UsbbusKey, UsblevelKey, UsbportKey, UsbdevKey, UsbmfrKey,
          UsbprodKey}
  }

  lemma CommonKeysHoldNoColon(k: Key)
    requires CommonKey(k)
    ensures NoColon(KeyName(k))
  {
  }

  lemma UsbKeysHoldNoColon(k: Key)
    requires UsbKey(k)
    ensures NoColon(KeyName(k))
  {
  }

  lemma OtherKeysHoldNoColon(k: Key)
    requires !CommonKey(k) && !UsbKey(k)
    ensures NoColon(KeyName(k))
  {
  }

  lemma KeysHoldNoColon(k: Key)
    ensures NoColon(KeyName(k))
  {
    hide KeyName;
    if CommonKey(k) { CommonKeysHoldNoColon(k); }
    else if UsbKey(k) { UsbKeysHoldNoColon(k); }
    else { OtherKeysHoldNoColon(k); }
  }

  lemma CommonKeyMark(k: Key)
    requires CommonKey(k)
    ensures |KeyName(k)| >= 1 && MarkedKey(KeyName(k)) == k
  {
  }

  lemma UsbKeyMark(k: Key)
    requires UsbKey(k)
    ensures |KeyName(k)| >= 1 && MarkedKey(KeyName(k)) == k
  {
  }

  lemma OtherKeyMark(k: Key)
    requires !CommonKey(k) && !UsbKey(k)
    ensures |KeyName(k)| >= 1 && MarkedKey(KeyName(k)) == k
  {
  }

  lemma KeyMark(k: Key)
    ensures |KeyName(k)| >= 1 && MarkedKey(KeyName(k)) == k
  {
    hide KeyName, MarkedKey;
    if CommonKey(k) { CommonKeyMark(k); } else if UsbKey(k) { UsbKeyMark(k); } else { OtherKeyMark(k); }
  }

  lemma KeysDiffer(j: Key, k: Key)
    requires KeyName(j) == KeyName(k)
    ensures j == k
  {
    KeyMark(j);
    KeyMark(k);
  }

  lemma PrefixKey(j: string, k: string, value: string)
    requires NoColon(j) && NoColon(k)
    ensures j + ":" <= k + ": " + value <==> j == k
  {
    var line := k + ": " + value;
    assert line[|k|] == ':' && forall i :: 0 <= i < |k| ==> line[i] == k[i];
    if j + ":" <= line {
      assert (j + ":")[|j|] == ':' == line[|j|];
      assert forall i :: 0 <= i < |j| ==> (j + ":")[i] == j[i] == line[i];
      assert |j| == |k|;
      assert j == k;
    }
    if j == k {
      assert line[..|j| + 1] == j + ":";
    }
  }

  // A keyed line has its own key and no other.
  lemma KeyMatch(k: Key, value: string)
    ensures forall j :: HasKey(Keyed(k, value), j) <==> j == k
    ensures Rest(Keyed(k, value), k) == value
  {
    KeysHoldNoColon(k);
    forall j ensures HasKey(Keyed(k, value), j) <==> j == k {
      KeysHoldNoColon(j);
      PrefixKey(KeyName(j), KeyName(k), value);
      if KeyName(j) == KeyName(k) { KeysDiffer(j, k); }
    }
    var line := Keyed(k, value);
    assert line[|KeyName(k)| + 2..] == value;
  }

  // ------------------------------------------------------ class and bus names

  function ClassMarked(s: string): Class
    requires |s| >= 1
  {
    var n, first, last := |s|, s[0], s[|s| - 1];
    if n <= 3 then (if first == 'H' then Hd else if first == 'U' then UsbClass else IdeClass)
    else if n == 4 then (if first == 'S' then ScsiClass else if first == 'T' then Tape else Raid)
    else if n == 5 then
      if first == 'O' then OtherClass else if first == 'A' then Audio else if first == 'C' then Cdrom
      else if first == 'V' then Video else if last == 'E' then Mouse else Modem
    else if n == 6 then (if first == 'U' then UnspecClass else if first == 'F' then Floppy else Socket)
    else if n == 7 then
      if first == 'N' then Network else if first == 'S' then Scanner else if first == 'P' then Printer
      else if first == 'C' then Capture else Monitor
    else if first == 'K' then KeyboardClass else FirewireClass
  }

  lemma ClassMark(c: Class)
    ensures |ClassName(c)| >= 1 && ClassMarked(ClassName(c)) == c
  {
    match c {
      case UnspecClass => case OtherClass => case Network => case ScsiClass => case Mouse => case Audio =>
      case Cdrom => case Modem => case Video => case Tape => case Floppy => case Scanner => case Hd => case Raid =>
      case Printer => case Capture => case KeyboardClass => case Monitor => case UsbClass => case Socket =>
      case FirewireClass => case IdeClass =>
    }
  }

  function BusMarked(s: string): Bus
    requires |s| >= 1
  {
    var n, first, last := |s|, s[0], s[|s| - 1];
    if n == 3 then
      if first == 'P' then PciBus else if first == 'U' then UsbBus else if first == 'I' then IdeBus
      else if first == 'D' then DdcBus else if first == 'A' then Adb else if first == 'V' then Vio else Xen
    else if n == 4 then
      if first == 'M' then Misc else if last == 'S' then Sbus else if last == 'I' then ScsiBus else S390
    else if n == 5 then (if first == 'O' then OtherBus else if first == 'P' then Psaux else Macio)
    else if n == 6 then
      if first == 'U' then UnspecBus else if first == 'S' then Serial else if first == 'I' then Isapnp else Pcmcia
    else if first == 'P' then Parallel else if first == 'K' then KeyboardBus else FirewireBus
  }

  lemma BusMark(b: Bus)
    ensures |BusName(b)| >= 1 && BusMarked(BusName(b)) == b
  {
    match b {
      case UnspecBus => case OtherBus => case PciBus => case Sbus => case UsbBus => case Psaux => case Serial =>
      case Parallel => case ScsiBus => case IdeBus => case KeyboardBus => case DdcBus => case Isapnp => case Misc =>
      case FirewireBus => case Pcmcia => case Adb => case Macio => case Vio => case S390 => case Xen =>
    }
  }

  lemma {:induction false} ClassFound(c: Class, from: seq<Class>)
    requires c in from
    ensures ClassNamed(ClassName(c), from) == c
  {
    ClassMark(c);
    ClassMark(from[0]);
    if from[0] != c { ClassFound(c, from[1..]); }
  }

  lemma {:induction false} BusFound(b: Bus, from: seq<Bus>)
    requires b in from
    ensures BusNamed(BusName(b), from) == Some(b)
  {
    BusMark(b);
    BusMark(from[0]);
    if from[0] != b { BusFound(b, from[1..]); }
  }

  lemma ClassesHold(c: Class)
    ensures c in CLASSES
  {
  }

  lemma BusesHold(b: Bus)
    ensures b in BUSES
  {
  }

  // The names the writer prints are read as the class and the bus they stand for.
  lemma NamesRoundTrip(c: Class, b: Bus)
    ensures ClassNamed(ClassName(c), CLASSES) == c && BusNamed(BusName(b), BUSES) == Some(b)
  {
    ClassesHold(c);
    ClassFound(c, CLASSES);
    BusesHold(b);
    BusFound(b, BUSES);
  }

  // ------------------------------------------------------------------- values

  lemma IntValue(n: int)
    ensures ParseInt(PrintInt(n)) == n
  {
    IntRoundTrip(n, "");
    assert PrintInt(n) + "" == PrintInt(n);
  }

  predicate IsS32(n: int) { -0x8000_0000 <= n < 0x8000_0000 }

  lemma HexOf(u: nat, width: nat, c: char)
    requires u < 0x1_0000_0000 && (c == '0' || c == ' ')
    ensures ParseHex(PrintHex(u, width, c)) == u
  {
    HexRoundTrip(u, width, c);
  }

  lemma SignedHexValue(n: int)
    requires IsS32(n)
    ensures S32(ParseHex(Hex4(n))) == n
  {
    hide ParseHex, PrintHex;
    HexOf(U32(n), 4, '0');
    WrapsBack(n);
  }

  lemma WrapsBack(n: int)
    requires IsS32(n)
    ensures U32(n) == (if n < 0 then n + 0x1_0000_0000 else n) && S32(U32(n)) == n
  {
  }

  // strtol where a long has 32 bits: it stops at the largest.
  function NarrowLong(n: int): int { if n > 0x7FFF_FFFF then 0x7FFF_FFFF else n }

  // There an identifier written as an unsigned word comes back exactly if it is not negative.
  lemma NarrowLongKeepsIff(n: int)
    requires IsS32(n)
    ensures S32(NarrowLong(ParseHex(Hex4(n)))) == n <==> n >= 0
  {
    hide ParseHex, PrintHex;
    HexOf(U32(n), 4, '0');
    WrapsBack(n);
  }

  lemma HexValue(n: int, width: nat, c: char)
    requires IsU32(n) && (c == '0' || c == ' ')
    ensures ParseHex(PrintHex(U32(n), width, c)) == n && U32(n) == n
  {
    hide ParseHex, PrintHex;
    assert U32(n) == n;
    HexRoundTrip(n, width, c);
  }

  lemma {:induction false} IndexFromIs(s: string, c: char, i: nat)
    requires i < |s| && s[i] == c && forall k :: 0 <= k < i ==> s[k] != c
    ensures IndexFrom(s, c) == i
  {
    var j := IndexFrom(s, c);
    assert j >= |s| ==> s[i] == c;
  }

  lemma Unquoted(head: string, text: string, line: string)
    requires '\"' !in head && line == head + "\"" + text + "\""
    ensures IndexFrom(line, '\"') == |head| && LastIndex(line, '\"') == |line| == |head| + |text| + 2
    ensures line[|head| + 1..|line| - 1] == text
  {
    assert line[|head|] == '\"' && forall k :: 0 <= k < |head| ==> line[k] == head[k];
    IndexFromIs(line, '\"', |head|);
    assert line[|line| - 1] == '\"';
  }

  // What is between the quotes comes back, whatever quotes it holds itself.
  lemma DescRoundTrip(desc: Option<string>)
    ensures DescOf(Keyed(DescKey, Described(desc))) == if desc.Some? then desc.value else "(null)"
  {
    hide IndexFrom, LastIndex;
    var text := if desc.Some? then desc.value else "(null)";
    var head := KeyName(DescKey) + ": ";
    var line := Keyed(DescKey, Described(desc));
    assert head == "desc: " && '\"' !in head;
    assert line == head + ("\"" + text + "\"") == head + "\"" + text + "\"";
    Unquoted(head, text, line);
  }

  lemma NoX(n: int)
    ensures 'x' !in PrintInt(n)
  {
    var m: nat := if n < 0 then -n else n;
    DigitsAreDigits(m, 10);
    assert DigitValue('x') == 16;
  }

  lemma AfterFirstX(head: string, b: string, line: string)
    requires 'x' !in head && line == head + "x" + b
    ensures AfterX(line) == b
  {
    assert line[|head|] == 'x' && forall k :: 0 <= k < |head| ==> line[k] == head[k];
    IndexFromIs(line, 'x', |head|);
    assert line[|head| + 1..] == b;
  }

  lemma ModeRoundTrip(w: int, h: int)
    ensures var line := Keyed(ModeKey, ModeText(w, h));
            IntAt(line, ModeKey) == w && ParseInt(AfterX(line)) == h
  {
    hide AfterX, PrintInt, ParseInt, Rest, IndexFrom;
    var line, a, b := Keyed(ModeKey, ModeText(w, h)), PrintInt(w), PrintInt(h);
    KeyMatch(ModeKey, ModeText(w, h));
    assert a + "x" + b == a + ("x" + b) && DigitValue('x') == 16;
    IntRoundTrip(w, "x" + b);
    NoX(w);
    var head := "mode: " + a;
    assert line == head + "x" + b;
    AfterFirstX(head, b, line);
    IntValue(h);
  }

  // ------------------------------------------------------------------ reading

  // The record after these lines.
  function Fold(body: seq<string>): Record {
    if body == [] then EMPTY else ParseLine(Fold(body[..|body| - 1]), body[|body| - 1])
  }

  lemma Snoc(body: seq<string>, k: Key, value: string)
    ensures Fold(Emit(body, k, value)) == ParseLine(Fold(body), Keyed(k, value))
  {
    var all := Emit(body, k, value);
    assert all[..|all| - 1] == body;
  }

  // A line of one of the common keys, on a record whose bus has no fields of its own yet.
  function SetCommon(r: Record, k: Key, v: string): Record {
    match k
    case ClassKey => r.(cls := ClassNamed(v, CLASSES))
    case BusKey => OnBus(r, BusNamed(v, BUSES))
    case DriverKey => r.(driver := Some(v))
    case DetachedKey => r.(detached := ParseInt(v))
    case DeviceKey => r.(device := Some(v))
    case DescKey => r.(desc := Some(DescOf(Keyed(k, v))))
    case HwaddrKey => if r.cls == Network then r.(private := Some(v)) else r
    case XdriverKey => if r.cls == Video then r.(private := Some(v)) else r
    case _ => r
  }

  lemma CommonIs(r: Record, k: Key, v: string)
    ensures ParseCommon(r, Keyed(k, v)) == SetCommon(r, k, v)
  {
    hide Keyed, KeyName, HasKey, Rest, ParseInt, ClassNamed, BusNamed, DescOf, OnBus;
    KeyMatch(k, v);
  }

  function SetPci(p: PciFields, k: Key, v: string): PciFields {
    match k
    case VendorIdKey => p.(vendorId := U32(ParseHex(v)))
    case DeviceIdKey => p.(deviceId := U32(ParseHex(v)))
    case PciTypeKey => p.(pciType := ParseInt(v))
    case SubVendorIdKey => p.(subVendorId := U32(ParseHex(v)))
    case SubDeviceIdKey => p.(subDeviceId := U32(ParseHex(v)))
    case PcidomKey => p.(pcidom := U32(ParseHex(v)))
    case PcibusKey => p.(pcibus := U32(ParseHex(v)))
    case PcidevKey => p.(pcidev := U32(ParseHex(v)))
    case PcifnKey => p.(pcifn := U32(ParseHex(v)))
    case _ => p
  }

  lemma PciIs(p: PciFields, k: Key, v: string)
    ensures ParsePci(p, Keyed(k, v)) == SetPci(p, k, v)
  {
    hide Keyed, KeyName, HasKey, Rest, ParseInt, ParseHex, U32, S32, AfterX, PlusMode;
    KeyMatch(k, v);
  }

  function SetUsb(p: UsbFields, k: Key, v: string): UsbFields {
    match k
    case UsbclassKey => p.(usbclass := ParseInt(v))
    case UsbsubclassKey => p.(usbsubclass := ParseInt(v))
    case UsbprotocolKey => p.(usbprotocol := ParseInt(v))
    case UsbbusKey => p.(usbbus := ParseInt(v))
    case UsblevelKey => p.(usblevel := ParseInt(v))
    case UsbportKey => p.(usbport := ParseInt(v))
    case UsbdevKey => p.(usbdev := ParseInt(v))
    case VendorIdKey => p.(vendorId := S32(ParseHex(v)))
    case DeviceIdKey => p.(deviceId := S32(ParseHex(v)))
    case UsbmfrKey => p.(usbmfr := Some(v))
    case UsbprodKey => p.(usbprod := Some(v))
    case _ => p
  }

  lemma UsbIs(p: UsbFields, k: Key, v: string)
    ensures ParseUsb(p, Keyed(k, v)) == SetUsb(p, k, v)
  {
    hide Keyed, KeyName, HasKey, Rest, ParseInt, ParseHex, U32, S32, AfterX, PlusMode;
    KeyMatch(k, v);
  }

  function SetScsi(p: ScsiFields, k: Key, v: string): ScsiFields {
    match k
    case HostKey => p.(host := U32(ParseInt(v)))
    case ChannelKey => p.(channel := U32(ParseInt(v)))
    case IdKey => p.(id := U32(ParseInt(v)))
    case LunKey => p.(lun := U32(ParseInt(v)))
    case _ => p
  }

  lemma ScsiIs(p: ScsiFields, k: Key, v: string)
    ensures ParseScsi(p, Keyed(k, v)) == SetScsi(p, k, v)
  {
    hide Keyed, KeyName, HasKey, Rest, ParseInt, ParseHex, U32, S32, AfterX, PlusMode;
    KeyMatch(k, v);
  }

  function SetDdc(p: DdcFields, k: Key, v: string): DdcFields {
    match k
    case IdKey => p.(id := Some(v))
    case HorizSyncMinKey => p.(horizSyncMin := ParseInt(v))
    case HorizSyncMaxKey => p.(horizSyncMax := ParseInt(v))
    case VertRefreshMinKey => p.(vertRefreshMin := ParseInt(v))
    case VertRefreshMaxKey => p.(vertRefreshMax := ParseInt(v))
    case ModeKey => p.(modes := PlusMode(p.modes, ParseInt(v), ParseInt(AfterX(Keyed(k, v)))))
    case MemKey => p.(mem := ParseInt(v))
    case _ => p
  }

  lemma DdcIs(p: DdcFields, k: Key, v: string)
    ensures ParseDdc(p, Keyed(k, v)) == SetDdc(p, k, v)
  {
    hide Keyed, KeyName, HasKey, Rest, ParseInt, ParseHex, U32, S32, AfterX, PlusMode;
    KeyMatch(k, v);
  }

  // No bus reads a common key.
  lemma CommonLeavesPayload(p: Payload, k: Key, v: string)
    requires CommonKey(k)
    ensures ParsePayload(p, Keyed(k, v)) == p
  {
    match p {
      case Plain(_) =>
      case Pci(q) => PciIs(q, k, v);
      case Usb(q) => UsbIs(q, k, v);
      case Scsi(q) => ScsiIs(q, k, v);
      case Ddc(q) => DdcIs(q, k, v);
    }
  }

  lemma CommonLine(b: seq<string>, k: Key, v: string)
    requires CommonKey(k)
    ensures Fold(Emit(b, k, v)) == SetCommon(Fold(b), k, v)
  {
    Snoc(b, k, v);
    CommonIs(Fold(b), k, v);
    CommonLeavesPayload(SetCommon(Fold(b), k, v).payload, k, v);
  }

  // --------------------------------------------------------- the common lines

  // What reading keeps of a device: the private string only where a class has one, and
  // "(null)" for a missing description.
  function KeptPrivate(r: Record): Option<string> {
    if r.cls == Network || r.cls == Video then r.private else None
  }

  function KeptDesc(r: Record): Option<string> {
    Some(if r.desc.Some? then r.desc.value else "(null)")
  }

  function Kept(r: Record): Record {
    Record(r.cls, r.device, r.driver, KeptDesc(r), r.detached, KeptPrivate(r), FreshPayload(BusOf(r.payload)))
  }

  lemma NothingRead()
    ensures Fold([]) == EMPTY
  {
  }

  // The first three lines make a blank record of the class and the bus.
  lemma HeadIsRead(c: Class, bus: Bus, detached: int)
    requires bus in {PciBus, UsbBus, ScsiBus, DdcBus} || Fieldless(bus)
    ensures var b1 := Emit([], ClassKey, ClassName(c));
            var b2 := Emit(b1, BusKey, BusName(bus));
            var b3 := Emit(b2, DetachedKey, PrintInt(detached));
            Fold(b3) == Record(c, None, None, None, detached, None, FreshPayload(bus))
  {
    hide Fold, Emit, Keyed, PrintInt, ParseInt, ClassNamed, BusNamed, ClassName, BusName, DescOf;
    NamesRoundTrip(c, bus);
    IntValue(detached);
    NothingRead();
    CommonLine([], ClassKey, ClassName(c));
    var b1 := Emit([], ClassKey, ClassName(c));
    CommonLine(b1, BusKey, BusName(bus));
    CommonLine(Emit(b1, BusKey, BusName(bus)), DetachedKey, PrintInt(detached));
  }

  lemma PrivateIsRead(b: seq<string>, r: Record)
    requires Fold(b).cls == r.cls && Fold(b).private == None
    ensures Fold(if r.cls == Network then EmitSome(b, HwaddrKey, r.private)
                 else if r.cls == Video then EmitSome(b, XdriverKey, r.private) else b)
         == Fold(b).(private := KeptPrivate(r))
  {
    hide Fold, Emit;
    SomeCommon(b, HwaddrKey, r.private);
    SomeCommon(b, XdriverKey, r.private);
  }

  lemma NamesAreRead(b: seq<string>, r: Record)
    requires Fold(b).device == None && Fold(b).driver == None
    ensures var b1 := EmitSome(EmitSome(b, DeviceKey, r.device), DriverKey, r.driver);
            Fold(b1) == Fold(b).(device := r.device, driver := r.driver)
  {
    hide Fold, Emit;
    SomeCommon(b, DeviceKey, r.device);
    SomeCommon(EmitSome(b, DeviceKey, r.device), DriverKey, r.driver);
  }

  lemma DescIsRead(b: seq<string>, r: Record)
    ensures Fold(Emit(b, DescKey, Described(r.desc))) == Fold(b).(desc := KeptDesc(r))
  {
    hide Fold, Emit, Keyed, Described, PrintHex, PrintInt, ParseInt, ParseHex;
    CommonLine(b, DescKey, Described(r.desc));
    DescRoundTrip(r.desc);
  }

  lemma CommonIsRead(r: Record)
    requires r.payload.Plain? ==> Fieldless(r.payload.bus)
    ensures Fold(CommonBody(r)) == Kept(r)
  {
    HeadIsRead(r.cls, BusOf(r.payload), r.detached);
    var b1 := Emit([], ClassKey, ClassName(r.cls));
    var b2 := Emit(b1, BusKey, BusName(BusOf(r.payload)));
    var b3 := Emit(b2, DetachedKey, PrintInt(r.detached));
    NamesAreRead(b3, r);
    var b5 := EmitSome(EmitSome(b3, DeviceKey, r.device), DriverKey, r.driver);
    DescIsRead(b5, r);
    PrivateIsRead(Emit(b5, DescKey, Described(r.desc)), r);
  }

  lemma SomeCommon(b: seq<string>, k: Key, v: Option<string>)
    requires CommonKey(k)
    ensures Fold(EmitSome(b, k, v)) == if v.Some? then SetCommon(Fold(b), k, v.value) else Fold(b)
  {
    if v.Some? { CommonLine(b, k, v.value); }
  }

  // ----------------------------------------------------- the lines of each bus

  lemma PciLine(b: seq<string>, k: Key, v: string, p: PciFields)
    requires !CommonKey(k) && Fold(b).payload == Pci(p)
    ensures Fold(Emit(b, k, v)) == Fold(b).(payload := Pci(SetPci(p, k, v)))
  {
    Snoc(b, k, v);
    CommonIs(Fold(b), k, v);
    PciIs(p, k, v);
  }

  predicate PciInRange(p: PciFields) {
    IsU32(p.vendorId) && IsU32(p.deviceId) && IsU32(p.subVendorId) && IsU32(p.subDeviceId)
    && IsU32(p.pcidom) && IsU32(p.pcibus) && IsU32(p.pcidev) && IsU32(p.pcifn)
  }

  lemma PciIdsAreRead(b: seq<string>, p: PciFields, q: PciFields)
    requires PciInRange(p) && Fold(b).payload == Pci(q)
    ensures var b1 := Emit(b, VendorIdKey, Hex4(p.vendorId));
            var b2 := Emit(b1, DeviceIdKey, Hex4(p.deviceId));
            var b3 := Emit(b2, SubVendorIdKey, Hex4(p.subVendorId));
            var b4 := Emit(b3, SubDeviceIdKey, Hex4(p.subDeviceId));
            Fold(b4) == Fold(b).(payload := Pci(q.(vendorId := p.vendorId, deviceId := p.deviceId,
                                                    subVendorId := p.subVendorId, subDeviceId := p.subDeviceId)))
  {
    hide Fold, Emit, Keyed, Described, PrintHex, PrintInt, ParseInt, ParseHex;
    HexValue(p.vendorId, 4, '0');
    HexValue(p.deviceId, 4, '0');
    HexValue(p.subVendorId, 4, '0');
    HexValue(p.subDeviceId, 4, '0');
    PciLine(b, VendorIdKey, Hex4(p.vendorId), q);
    var b1, q1 := Emit(b, VendorIdKey, Hex4(p.vendorId)), q.(vendorId := p.vendorId);
    PciLine(b1, DeviceIdKey, Hex4(p.deviceId), q1);
    var b2, q2 := Emit(b1, DeviceIdKey, Hex4(p.deviceId)), q1.(deviceId := p.deviceId);
    PciLine(b2, SubVendorIdKey, Hex4(p.subVendorId), q2);
    var b3, q3 := Emit(b2, SubVendorIdKey, Hex4(p.subVendorId)), q2.(subVendorId := p.subVendorId);
    PciLine(b3, SubDeviceIdKey, Hex4(p.subDeviceId), q3);
  }

  lemma PciBusIsRead(b: seq<string>, p: PciFields, q: PciFields)
    requires PciInRange(p) && Fold(b).payload == Pci(q)
    ensures var b1 := Emit(b, PciTypeKey, PrintInt(p.pciType));
            var b2 := Emit(b1, PcidomKey, PrintHex(U32(p.pcidom), 4, ' '));
            var b3 := Emit(b2, PcibusKey, PrintHex(U32(p.pcibus), 2, ' '));
            Fold(b3) == Fold(b).(payload := Pci(q.(pciType := p.pciType, pcidom := p.pcidom, pcibus := p.pcibus)))
  {
    hide Fold, Emit, Keyed, U32, PrintHex, PrintInt, ParseInt, ParseHex;
    IntValue(p.pciType);
    HexValue(p.pcidom, 4, ' ');
    HexValue(p.pcibus, 2, ' ');
    PciLine(b, PciTypeKey, PrintInt(p.pciType), q);
    var b1, q1 := Emit(b, PciTypeKey, PrintInt(p.pciType)), q.(pciType := p.pciType);
    PciLine(b1, PcidomKey, PrintHex(U32(p.pcidom), 4, ' '), q1);
    var b2, q2 := Emit(b1, PcidomKey, PrintHex(U32(p.pcidom), 4, ' ')), q1.(pcidom := p.pcidom);
    PciLine(b2, PcibusKey, PrintHex(U32(p.pcibus), 2, ' '), q2);
  }

  lemma PciPlaceIsRead(b: seq<string>, p: PciFields, q: PciFields)
    requires PciInRange(p) && Fold(b).payload == Pci(q)
    ensures var b1 := Emit(b, PcidevKey, PrintHex(U32(p.pcidev), 2, ' '));
            var b2 := Emit(b1, PcifnKey, PrintHex(U32(p.pcifn), 2, ' '));
            Fold(b2) == Fold(b).(payload := Pci(q.(pcidev := p.pcidev, pcifn := p.pcifn)))
  {
    hide Fold, Emit, Keyed, U32, PrintHex, PrintInt, ParseInt, ParseHex;
    HexValue(p.pcidev, 2, ' ');
    HexValue(p.pcifn, 2, ' ');
    PciLine(b, PcidevKey, PrintHex(U32(p.pcidev), 2, ' '), q);
    var b1, q1 := Emit(b, PcidevKey, PrintHex(U32(p.pcidev), 2, ' ')), q.(pcidev := p.pcidev);
    PciLine(b1, PcifnKey, PrintHex(U32(p.pcifn), 2, ' '), q1);
  }

  lemma PciIsRead(b: seq<string>, p: PciFields)
    requires PciInRange(p) && Fold(b).payload == FreshPayload(PciBus)
    ensures Fold(PciBody(b, p)) == Fold(b).(payload := Pci(p))
  {
    var q := Fold(b).payload.pci;
    PciIdsAreRead(b, p, q);
    var b1 := Emit(b, VendorIdKey, Hex4(p.vendorId));
    var b2 := Emit(b1, DeviceIdKey, Hex4(p.deviceId));
    var b3 := Emit(b2, SubVendorIdKey, Hex4(p.subVendorId));
    var b4 := Emit(b3, SubDeviceIdKey, Hex4(p.subDeviceId));
    var q4 := q.(vendorId := p.vendorId, deviceId := p.deviceId, subVendorId := p.subVendorId,
                 subDeviceId := p.subDeviceId);
    PciBusIsRead(b4, p, q4);
    var b5 := Emit(b4, PciTypeKey, PrintInt(p.pciType));
    var b6 := Emit(b5, PcidomKey, PrintHex(U32(p.pcidom), 4, ' '));
    var b7 := Emit(b6, PcibusKey, PrintHex(U32(p.pcibus), 2, ' '));
    PciPlaceIsRead(b7, p, q4.(pciType := p.pciType, pcidom := p.pcidom, pcibus := p.pcibus));
  }

  lemma ScsiLine(b: seq<string>, k: Key, v: string, p: ScsiFields)
    requires !CommonKey(k) && Fold(b).payload == Scsi(p)
    ensures Fold(Emit(b, k, v)) == Fold(b).(payload := Scsi(SetScsi(p, k, v)))
  {
    Snoc(b, k, v);
    CommonIs(Fold(b), k, v);
    ScsiIs(p, k, v);
  }

  predicate ScsiInRange(p: ScsiFields) {
    IsU32(p.host) && IsU32(p.channel) && IsU32(p.id) && IsU32(p.lun)
  }

  lemma SignedValue(n: int)
    requires IsU32(n)
    ensures U32(ParseInt(PrintInt(S32(n)))) == n
  {
    hide PrintInt, ParseInt, S32, U32;
    IntValue(S32(n));
    Wraps(n);
  }

  lemma Wraps(n: int)
    requires IsU32(n)
    ensures U32(S32(n)) == n
  {
  }

  lemma ScsiPairIsRead(b: seq<string>, k: Key, m: int, l: Key, n: int, q: ScsiFields)
    requires IsU32(m) && IsU32(n) && Fold(b).payload == Scsi(q)
    requires (k == HostKey && l == IdKey) || (k == ChannelKey && l == LunKey)
    ensures var b1 := Emit(b, k, PrintInt(S32(m)));
            var b2 := Emit(b1, l, PrintInt(S32(n)));
            var q2 := if k == HostKey then q.(host := m, id := n) else q.(channel := m, lun := n);
            Fold(b2) == Fold(b).(payload := Scsi(q2))
  {
    hide Fold, Emit, Keyed, PrintInt, ParseInt, U32, S32;
    SignedValue(m);
    SignedValue(n);
    ScsiLine(b, k, PrintInt(S32(m)), q);
    var b1, q1 := Emit(b, k, PrintInt(S32(m))), if k == HostKey then q.(host := m) else q.(channel := m);
    ScsiLine(b1, l, PrintInt(S32(n)), q1);
  }

  lemma ScsiIsRead(b: seq<string>, p: ScsiFields)
    requires ScsiInRange(p) && Fold(b).payload == FreshPayload(ScsiBus)
    ensures Fold(ScsiBody(b, p)) == Fold(b).(payload := Scsi(p))
  {
    hide Fold, Emit, Keyed, PrintInt, ParseInt, U32, S32;
    var q := Fold(b).payload.scsi;
    ScsiPairIsRead(b, HostKey, p.host, IdKey, p.id, q);
    var b2 := Emit(Emit(b, HostKey, PrintInt(S32(p.host))), IdKey, PrintInt(S32(p.id)));
    ScsiPairIsRead(b2, ChannelKey, p.channel, LunKey, p.lun, q.(host := p.host, id := p.id));
  }

  lemma UsbLine(b: seq<string>, k: Key, v: string, p: UsbFields)
    requires !CommonKey(k) && Fold(b).payload == Usb(p)
    ensures Fold(Emit(b, k, v)) == Fold(b).(payload := Usb(SetUsb(p, k, v)))
  {
    Snoc(b, k, v);
    CommonIs(Fold(b), k, v);
    UsbIs(p, k, v);
  }

  // The identifiers are signed words written as unsigned ones, which strtol reads where a
  // long has 64 bits.
  predicate UsbInRange(p: UsbFields) {
    IsS32(p.vendorId) && IsS32(p.deviceId)
  }

  lemma UsbKindIsRead(b: seq<string>, p: UsbFields, q: UsbFields)
    requires Fold(b).payload == Usb(q)
    ensures var b1 := Emit(b, UsbclassKey, PrintInt(p.usbclass));
            var b2 := Emit(b1, UsbsubclassKey, PrintInt(p.usbsubclass));
            var b3 := Emit(b2, UsbprotocolKey, PrintInt(p.usbprotocol));
            Fold(b3) == Fold(b).(payload := Usb(q.(usbclass := p.usbclass, usbsubclass := p.usbsubclass,
                                                   usbprotocol := p.usbprotocol)))
  {
    hide Fold, Emit, Keyed, PrintInt, ParseInt, PrintHex, ParseHex;
    IntValue(p.usbclass);
    IntValue(p.usbsubclass);
    IntValue(p.usbprotocol);
    UsbLine(b, UsbclassKey, PrintInt(p.usbclass), q);
    var b1, q1 := Emit(b, UsbclassKey, PrintInt(p.usbclass)), q.(usbclass := p.usbclass);
    UsbLine(b1, UsbsubclassKey, PrintInt(p.usbsubclass), q1);
    var b2, q2 := Emit(b1, UsbsubclassKey, PrintInt(p.usbsubclass)), q1.(usbsubclass := p.usbsubclass);
    UsbLine(b2, UsbprotocolKey, PrintInt(p.usbprotocol), q2);
  }

  lemma UsbHubIsRead(b: seq<string>, p: UsbFields, q: UsbFields)
    requires Fold(b).payload == Usb(q)
    ensures var b1 := Emit(b, UsbbusKey, PrintInt(p.usbbus));
            var b2 := Emit(b1, UsblevelKey, PrintInt(p.usblevel));
            Fold(b2) == Fold(b).(payload := Usb(q.(usbbus := p.usbbus, usblevel := p.usblevel)))
  {
    hide Fold, Emit, Keyed, PrintInt, ParseInt, PrintHex, ParseHex;
    IntValue(p.usbbus);
    IntValue(p.usblevel);
    UsbLine(b, UsbbusKey, PrintInt(p.usbbus), q);
    var b1, q1 := Emit(b, UsbbusKey, PrintInt(p.usbbus)), q.(usbbus := p.usbbus);
    UsbLine(b1, UsblevelKey, PrintInt(p.usblevel), q1);
  }

  lemma UsbPlaceIsRead(b: seq<string>, p: UsbFields, q: UsbFields)
    requires Fold(b).payload == Usb(q)
    ensures var b1 := Emit(b, UsbportKey, PrintInt(p.usbport));
            var b2 := Emit(b1, UsbdevKey, PrintInt(p.usbdev));
            Fold(b2) == Fold(b).(payload := Usb(q.(usbport := p.usbport, usbdev := p.usbdev)))
  {
    hide Fold, Emit, Keyed, PrintInt, ParseInt, PrintHex, ParseHex;
    IntValue(p.usbport);
    IntValue(p.usbdev);
    UsbLine(b, UsbportKey, PrintInt(p.usbport), q);
    var b1, q1 := Emit(b, UsbportKey, PrintInt(p.usbport)), q.(usbport := p.usbport);
    UsbLine(b1, UsbdevKey, PrintInt(p.usbdev), q1);
  }

  lemma SomeUsb(b: seq<string>, k: Key, v: Option<string>, p: UsbFields)
    requires !CommonKey(k) && Fold(b).payload == Usb(p)
    ensures Fold(EmitSome(b, k, v))
         == if v.Some? then Fold(b).(payload := Usb(SetUsb(p, k, v.value))) else Fold(b)
  {
    if v.Some? { UsbLine(b, k, v.value, p); }
  }

  lemma UsbIdsAreRead(b: seq<string>, p: UsbFields, q: UsbFields)
    requires UsbInRange(p) && Fold(b).payload == Usb(q) && q.usbmfr == None && q.usbprod == None
    ensures var b1 := Emit(b, VendorIdKey, Hex4(p.vendorId));
            var b2 := Emit(b1, DeviceIdKey, Hex4(p.deviceId));
            var b3 := EmitSome(b2, UsbmfrKey, p.usbmfr);
            var b4 := EmitSome(b3, UsbprodKey, p.usbprod);
            Fold(b4) == Fold(b).(payload := Usb(q.(vendorId := p.vendorId, deviceId := p.deviceId,
                                                   usbmfr := p.usbmfr, usbprod := p.usbprod)))
  {
    hide Fold, Emit, Keyed, PrintInt, ParseInt, PrintHex, ParseHex, Hex4, S32;
    SignedHexValue(p.vendorId);
    SignedHexValue(p.deviceId);
    UsbLine(b, VendorIdKey, Hex4(p.vendorId), q);
    var b1, q1 := Emit(b, VendorIdKey, Hex4(p.vendorId)), q.(vendorId := p.vendorId);
    UsbLine(b1, DeviceIdKey, Hex4(p.deviceId), q1);
    var b2, q2 := Emit(b1, DeviceIdKey, Hex4(p.deviceId)), q1.(deviceId := p.deviceId);
    SomeUsb(b2, UsbmfrKey, p.usbmfr, q2);
    var b3, q3 := EmitSome(b2, UsbmfrKey, p.usbmfr), q2.(usbmfr := p.usbmfr);
    SomeUsb(b3, UsbprodKey, p.usbprod, q3);
  }

  lemma UsbIsRead(b: seq<string>, p: UsbFields)
    requires UsbInRange(p) && Fold(b).payload == FreshPayload(UsbBus)
    ensures Fold(UsbBody(b, p)) == Fold(b).(payload := Usb(p))
  {
    hide Fold, Emit, Keyed, PrintInt, ParseInt, PrintHex, ParseHex, EmitSome;
    var q := Fold(b).payload.usb;
    UsbKindIsRead(b, p, q);
    var b1 := Emit(b, UsbclassKey, PrintInt(p.usbclass));
    var b2 := Emit(b1, UsbsubclassKey, PrintInt(p.usbsubclass));
    var b3 := Emit(b2, UsbprotocolKey, PrintInt(p.usbprotocol));
    var q3 := q.(usbclass := p.usbclass, usbsubclass := p.usbsubclass, usbprotocol := p.usbprotocol);
    UsbHubIsRead(b3, p, q3);
    var b4 := Emit(b3, UsbbusKey, PrintInt(p.usbbus));
    var b5 := Emit(b4, UsblevelKey, PrintInt(p.usblevel));
    UsbPlaceIsRead(b5, p, q3.(usbbus := p.usbbus, usblevel := p.usblevel));
    var b6 := Emit(b5, UsbportKey, PrintInt(p.usbport));
    var b7 := Emit(b6, UsbdevKey, PrintInt(p.usbdev));
    UsbIdsAreRead(b7, p, p.(vendorId := q.vendorId, deviceId := q.deviceId, usbmfr := q.usbmfr, usbprod := q.usbprod));
  }

  // ------------------------------------------------------------------ monitors

  lemma DdcLine(b: seq<string>, k: Key, v: string, p: DdcFields)
    requires !CommonKey(k) && Fold(b).payload == Ddc(p)
    ensures Fold(Emit(b, k, v)) == Fold(b).(payload := Ddc(SetDdc(p, k, v)))
  {
    Snoc(b, k, v);
    CommonIs(Fold(b), k, v);
    DdcIs(p, k, v);
  }

  // The modes from x on, up to their end, after those already there.
  function PlusModes(modes: seq<int>, from: seq<int>, x: nat): seq<int>
    requires ModesEnd(from, x)
    decreases |from| - x
  {
    if from[x] == 0 then modes else PlusModes(PlusMode(modes, from[x], from[x + 1]), from, x + 2)
  }

  lemma ModeIsRead(b: seq<string>, w: int, h: int, p: DdcFields)
    requires Fold(b).payload == Ddc(p)
    ensures Fold(Emit(b, ModeKey, ModeText(w, h))) == Fold(b).(payload := Ddc(p.(modes := PlusMode(p.modes, w, h))))
  {
    hide Fold, Emit, Keyed, ModeText, ParseInt, AfterX, PlusMode;
    ModeRoundTrip(w, h);
    KeyMatch(ModeKey, ModeText(w, h));
    DdcLine(b, ModeKey, ModeText(w, h), p);
  }

  lemma {:induction false} ModesAreRead(b: seq<string>, from: seq<int>, x: nat, p: DdcFields)
    requires ModesEnd(from, x) && Fold(b).payload == Ddc(p)
    ensures Fold(ModesBody(b, from, x)) == Fold(b).(payload := Ddc(p.(modes := PlusModes(p.modes, from, x))))
    decreases |from| - x
  {
    hide Fold, Emit, ModeText, PlusMode;
    if from[x] != 0 {
      ModeIsRead(b, from[x], from[x + 1], p);
      var q := p.(modes := PlusMode(p.modes, from[x], from[x + 1]));
      ModesAreRead(Emit(b, ModeKey, ModeText(from[x], from[x + 1])), from, x + 2, q);
    }
  }

  // An array of no modes is read back as none.
  function KeptModes(modes: seq<int>): seq<int> {
    if modes == [0] then [] else modes
  }

  lemma {:induction false} PlusModesIs(front: seq<int>, from: seq<int>, x: nat)
    requires ModesEnd(from, x)
    ensures PlusModes(front + [0], from, x) == front + from[x..]
    decreases |from| - x
  {
    if from[x] == 0 {
      assert from[x..] == [0];
    } else {
      var more := front + [from[x], from[x + 1]];
      assert (front + [0])[..|front|] == front;
      assert PlusMode(front + [0], from[x], from[x + 1]) == more + [0];
      PlusModesIs(more, from, x + 2);
      assert more + from[x + 2..] == front + from[x..];
    }
  }

  lemma AllModes(modes: seq<int>)
    requires modes != [] && ModesEnd(modes, 0)
    ensures PlusModes([], modes, 0) == KeptModes(modes)
  {
    if modes[0] != 0 {
      assert PlusMode([], modes[0], modes[1]) == [modes[0], modes[1]] + [0];
      PlusModesIs([modes[0], modes[1]], modes, 2);
    }
  }

  lemma SomeDdc(b: seq<string>, k: Key, v: Option<string>, p: DdcFields)
    requires !CommonKey(k) && Fold(b).payload == Ddc(p)
    ensures Fold(EmitSome(b, k, v))
         == if v.Some? then Fold(b).(payload := Ddc(SetDdc(p, k, v.value))) else Fold(b)
  {
    if v.Some? { DdcLine(b, k, v.value, p); }
  }

  lemma NonzeroDdc(b: seq<string>, k: Key, n: int, p: DdcFields)
    requires !CommonKey(k) && Fold(b).payload == Ddc(p)
    ensures Fold(EmitNonzero(b, k, n))
         == if n != 0 then Fold(b).(payload := Ddc(SetDdc(p, k, PrintInt(n)))) else Fold(b)
  {
    if n != 0 { DdcLine(b, k, PrintInt(n), p); }
  }

  lemma SyncIsRead(b: seq<string>, p: DdcFields, q: DdcFields)
    requires Fold(b).payload == Ddc(q) && q.id == None && q.horizSyncMin == 0 && q.horizSyncMax == 0
    ensures var b1 := EmitSome(b, IdKey, p.id);
            var b2 := EmitNonzero(b1, HorizSyncMinKey, p.horizSyncMin);
            var b3 := EmitNonzero(b2, HorizSyncMaxKey, p.horizSyncMax);
            Fold(b3) == Fold(b).(payload := Ddc(q.(id := p.id, horizSyncMin := p.horizSyncMin,
                                                   horizSyncMax := p.horizSyncMax)))
  {
    hide Fold, Emit, Keyed, PrintInt, ParseInt;
    IntValue(p.horizSyncMin);
    IntValue(p.horizSyncMax);
    SomeDdc(b, IdKey, p.id, q);
    var b1, q1 := EmitSome(b, IdKey, p.id), q.(id := p.id);
    NonzeroDdc(b1, HorizSyncMinKey, p.horizSyncMin, q1);
    var b2, q2 := EmitNonzero(b1, HorizSyncMinKey, p.horizSyncMin), q1.(horizSyncMin := p.horizSyncMin);
    NonzeroDdc(b2, HorizSyncMaxKey, p.horizSyncMax, q2);
  }

  lemma RefreshIsRead(b: seq<string>, p: DdcFields, q: DdcFields)
    requires Fold(b).payload == Ddc(q) && q.vertRefreshMin == 0 && q.vertRefreshMax == 0
    ensures var b1 := EmitNonzero(b, VertRefreshMinKey, p.vertRefreshMin);
            var b2 := EmitNonzero(b1, VertRefreshMaxKey, p.vertRefreshMax);
            Fold(b2) == Fold(b).(payload := Ddc(q.(vertRefreshMin := p.vertRefreshMin,
                                                   vertRefreshMax := p.vertRefreshMax)))
  {
    hide Fold, Emit, Keyed, PrintInt, ParseInt;
    IntValue(p.vertRefreshMin);
    IntValue(p.vertRefreshMax);
    NonzeroDdc(b, VertRefreshMinKey, p.vertRefreshMin, q);
    var b1, q1 := EmitNonzero(b, VertRefreshMinKey, p.vertRefreshMin), q.(vertRefreshMin := p.vertRefreshMin);
    NonzeroDdc(b1, VertRefreshMaxKey, p.vertRefreshMax, q1);
  }

  lemma TailIsRead(b: seq<string>, p: DdcFields, q: DdcFields)
    requires Ended(p) && Fold(b).payload == Ddc(q) && q.modes == [] && q.mem == 0
    ensures var b1 := if p.modes != [] then ModesBody(b, p.modes, 0) else b;
            (Fold(EmitNonzero(b1, MemKey, p.mem))
             == Fold(b).(payload := Ddc(q.(modes := KeptModes(p.modes), mem := p.mem))))
  {
    hide Fold, Emit, Keyed, PrintInt, ParseInt, KeptModes, ModesBody;
    IntValue(p.mem);
    if p.modes != [] {
      ModesAreRead(b, p.modes, 0, q);
      AllModes(p.modes);
      NonzeroDdc(ModesBody(b, p.modes, 0), MemKey, p.mem, q.(modes := KeptModes(p.modes)));
    } else {
      assert KeptModes([]) == [] by { NoModes(); }
      NonzeroDdc(b, MemKey, p.mem, q);
    }
  }

  lemma NoModes()
    ensures KeptModes([]) == []
  {
  }

  lemma DdcIsRead(b: seq<string>, p: DdcFields)
    requires Ended(p) && Fold(b).payload == FreshPayload(DdcBus)
    ensures Fold(DdcBody(b, p)) == Fold(b).(payload := Ddc(p.(modes := KeptModes(p.modes))))
  {
    hide Fold, Emit, Keyed, PrintInt, EmitSome, EmitNonzero, KeptModes, ModesBody;
    var q := Fold(b).payload.ddc;
    SyncIsRead(b, p, q);
    var b1 := EmitSome(b, IdKey, p.id);
    var b2 := EmitNonzero(b1, HorizSyncMinKey, p.horizSyncMin);
    var b3 := EmitNonzero(b2, HorizSyncMaxKey, p.horizSyncMax);
    RefreshIsRead(b3, p, q.(id := p.id, horizSyncMin := p.horizSyncMin, horizSyncMax := p.horizSyncMax));
    var b4 := EmitNonzero(b3, VertRefreshMinKey, p.vertRefreshMin);
    var b5 := EmitNonzero(b4, VertRefreshMaxKey, p.vertRefreshMax);
    TailIsRead(b5, p, p.(modes := [], mem := 0));
  }

  // ------------------------------------------------------------- whole files

  // The values the C types hold; for the others see UsbInRange.
  predicate InRange(r: Record): (ok: bool)
    ensures ok ==> Writable(r)
  {
    match r.payload
    case Plain(b) => Fieldless(b)
    case Pci(p) => PciInRange(p)
    case Usb(p) => UsbInRange(p)
    case Scsi(p) => ScsiInRange(p)
    case Ddc(p) => Ended(p)
  }

  // What a device is after it was written and read.
  function Normalize(r: Record): Record
    requires InRange(r)
  {
    r.(desc := KeptDesc(r), private := KeptPrivate(r),
       payload := if r.payload.Ddc? then Ddc(r.payload.ddc.(modes := KeptModes(r.payload.ddc.modes))) else r.payload)
  }

  lemma BodyIsRead(r: Record)
    requires InRange(r)
    ensures Fold(Body(r)) == Normalize(r)
  {
    hide Fold, CommonBody, PciBody, UsbBody, ScsiBody, DdcBody, KeptModes;
    CommonIsRead(r);
    var b := CommonBody(r);
    match r.payload {
      case Plain(_) =>
      case Pci(p) => PciIsRead(b, p);
      case Usb(p) => UsbIsRead(b, p);
      case Scsi(p) => ScsiIsRead(b, p);
      case Ddc(p) => DdcIsRead(b, p);
    }
  }

  // The reader folds the lines of a device up to what follows them.
  lemma {:induction false} ReadOneFolds(body: seq<string>, rest: seq<string>)
    requires NoSeparator(body)
    ensures ReadOne(body + rest, None) == ReadOne(rest, if body == [] then None else Some(Fold(body)))
    decreases |body|
  {
    hide ParseLine, Fold;
    if body == [] {
      assert body + rest == rest;
    } else {
      var init, last := body[..|body| - 1], body[|body| - 1];
      assert body + rest == init + ([last] + rest);
      ReadOneFolds(init, [last] + rest);
      FoldLast(body);
      var all := [last] + rest;
      assert all[0] == last && all[1..] == rest;
      if init == [] { NothingRead(); }
    }
  }

  lemma FoldLast(body: seq<string>)
    requires body != []
    ensures Fold(body) == ParseLine(Fold(body[..|body| - 1]), body[|body| - 1])
  {
  }

  predicate AllInRange(rs: seq<Record>): (ok: bool)
    ensures ok ==> forall r :: r in rs ==> Writable(r)
  {
    forall i :: 0 <= i < |rs| ==> InRange(rs[i])
  }

  function NormalizeAll(rs: seq<Record>): seq<Record>
    requires AllInRange(rs)
  {
    if rs == [] then [] else [Normalize(rs[0])] + NormalizeAll(rs[1..])
  }

  lemma OneIsRead(r: Record, rest: seq<string>)
    requires InRange(r) && (rest == [] || rest[0] == "-")
    ensures ReadOne(Body(r) + rest, None) == ReadResult(Some(Normalize(r)), if rest == [] then [] else rest[1..])
  {
    hide Fold, ParseLine, Normalize, Body;
    BodyIsRead(r);
    ReadOneFolds(Body(r), rest);
  }

  lemma {:induction false} AllAreRead(rs: seq<Record>)
    requires rs != [] && AllInRange(rs)
    ensures FileLines(rs)[0] == "-" && ReadAll(FileLines(rs)[1..]) == NormalizeAll(rs)
  {
    hide Fold, ParseLine, Normalize, Body;
    var rest := FileLines(rs[1..]);
    assert FileLines(rs)[1..] == Body(rs[0]) + rest;
    if |rs| == 1 {
      OneIsRead(rs[0], rest);
    } else {
      AllAreRead(rs[1..]);
      OneIsRead(rs[0], rest);
    }
  }

  // Writing devices and reading them back gives, before the sort, the devices normalized.
  lemma RoundTrip(rs: seq<Record>)
    requires rs != [] && AllInRange(rs)
    ensures ReadFile(FileLines(rs)) == Some(NormalizeAll(rs))
  {
    AllAreRead(rs);
  }

  // A device that comes back as it was: described, without a private string that no line
  // is written for, and with at least one mode if it has a mode array.
  predicate Faithful(r: Record) {
    r.desc.Some? && (r.private.Some? ==> r.cls == Network || r.cls == Video)
    && (r.payload.Ddc? ==> r.payload.ddc.modes != [0])
  }

  lemma {:induction false} NormalizeAllIsEach(rs: seq<Record>)
    requires AllInRange(rs)
    ensures NormalizeAll(rs) == rs <==> forall r :: r in rs ==> Faithful(r)
  {
    if rs != [] {
      NormalizeAllIsEach(rs[1..]);
      var all := NormalizeAll(rs);
      assert all[0] == Normalize(rs[0]) && all[1..] == NormalizeAll(rs[1..]);
      assert rs == [rs[0]] + rs[1..];
      assert Normalize(rs[0]) == rs[0] <==> Faithful(rs[0]);
    }
  }

  // A line that the buffer and the string functions of the reader are made for.
  predicate Clean(line: string) {
    '\n' !in line && 0 as char !in line && |line| + 2 <= 512
  }

  lemma SplitOne(line: string, rest: string, text: string)
    requires '\n' !in line && text == line + "\n" + rest
    ensures Split(text) == [line] + Split(rest)
  {
    assert text[|line|] == '\n' && forall k :: 0 <= k < |line| ==> text[k] == line[k];
    IndexFromIs(text, '\n', |line|);
    assert text[..|line|] == line && text[|line| + 1..] == rest;
  }

  lemma {:induction false} UnlinesIsReadable(lines: seq<string>)
    requires forall line :: line in lines ==> Clean(line)
    ensures Split(Unlines(lines)) == lines && Readable(Unlines(lines))
  {
    if lines != [] {
      var rest, text := Unlines(lines[1..]), Unlines(lines);
      UnlinesIsReadable(lines[1..]);
      assert Clean(lines[0]);
      SplitOne(lines[0], rest, text);
      assert lines == [lines[0]] + lines[1..];
      ReadableOne(lines[0], rest, text);
    }
  }

  lemma ReadableOne(line: string, rest: string, text: string)
    requires Clean(line) && text == line + "\n" + rest && Split(text) == [line] + Split(rest) && Readable(rest)
    ensures Readable(text)
  {
    hide Split;
    if rest != "" { assert text[|text| - 1] == rest[|rest| - 1]; }
    forall i | 0 <= i < |text| ensures text[i] != 0 as char {
      if i < |line| { assert text[i] == line[i]; }
      else if i > |line| { assert text[i] == rest[i - |line| - 1]; }
    }
  }

  // On a readable text the two ways to look for the separator agree.
  lemma {:induction false} SeparatorFound(text: string)
    requires Readable(text)
    ensures var after := AfterSeparator(text);
            && SkipToSeparator(Split(text)) == (if after.Some? then Some(Split(after.value)) else None)
            && (after.Some? ==> Readable(after.value))
    decreases |text|
  {
    hide Readable, Taken;
    if text != "" {
      var n, lines := Taken(text), Split(text);
      LineRead(text);
      assert lines == [lines[0]] + lines[1..];
      assert text[..n] == "-\n" <==> lines[0] == "-" by {
        assert text[..n][..|text[..n]| - 1] == lines[0];
      }
      SeparatorFound(text[n..]);
    }
  }

  // Writing devices to a file and reading it back, through the buffer: they come back in
  // order and, before the sort, normalized.
  lemma TextRoundTrip(rs: seq<Record>)
    requires rs != [] && AllInRange(rs) && forall line :: line in FileLines(rs) ==> Clean(line)
    ensures var text := Unlines(FileLines(rs));
            && ReadText(text) == Some(NormalizeAll(rs))
            && AfterSeparator(text).Some? && Readable(AfterSeparator(text).value)
  {
    hide FileLines, Split, ReadAll;
    var text := Unlines(FileLines(rs));
    UnlinesIsReadable(FileLines(rs));
    SeparatorFound(text);
    RoundTrip(rs);
  }

  // They come back as they were exactly if every device is faithful.
  lemma RoundTripIsExactIff(rs: seq<Record>)
    requires rs != [] && AllInRange(rs) && forall line :: line in FileLines(rs) ==> Clean(line)
    ensures ReadText(Unlines(FileLines(rs))) == Some(rs) <==> forall r :: r in rs ==> Faithful(r)
  {
    TextRoundTrip(rs);
    NormalizeAllIsEach(rs);
  }
}
