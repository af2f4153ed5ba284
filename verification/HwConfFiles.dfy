// The methods that write and read the hwconf file.
module HwConfFiles {
  import opened Common
  import opened Text
  import opened HwConf

  // --------------------------------------------------------------- the writers

  // `body` holds the lines of the device being written, `before` those in front of it.
  class Output {
    var text: string
    ghost var before: seq<string>
    ghost var body: seq<string>

    ghost predicate Valid()
      reads this
    {
      text == Unlines(before + body)
    }

    constructor ()
      ensures Valid() && before == [] && body == []
    {
      text, before, body := "", [], [];
    }

    method PrintSeparator()
      requires Valid()
      modifies this
      ensures Valid() && before == old(before + body) + ["-"] && body == []
    {
      UnlinesOne(before + body, "-");
      text, before, body := text + "-\n", before + body + ["-"], [];
      assert before + body == before;
    }

    // An fprintf of one "key: value" line.
    method PrintKeyed(k: Key, value: string)
      requires Valid()
      modifies this
      ensures Valid() && before == old(before) && body == Emit(old(body), k, value)
    {
      var line := Keyed(k, value);
      UnlinesOne(before + body, line);
      assert before + (body + [line]) == before + body + [line];
      text, body := text + line + "\n", body + [line];
    }

    method PrintSome(k: Key, value: Option<string>)
      requires Valid()
      modifies this
      ensures Valid() && before == old(before) && body == EmitSome(old(body), k, value)
    {
      if value.Some? { PrintKeyed(k, value.value); }
    }

    method PrintNonzero(k: Key, n: int)
      requires Valid()
      modifies this
      ensures Valid() && before == old(before) && body == EmitNonzero(old(body), k, n)
    {
      if n != 0 { PrintKeyed(k, PrintInt(n)); }
    }

    method WriteDevice(r: Record)
      requires Valid()
      modifies this
      ensures Valid() && before == old(before + body) + ["-"] && body == CommonBody(r)
    {
      PrintSeparator();
      PrintKeyed(ClassKey, ClassName(r.cls));
      PrintKeyed(BusKey, BusName(BusOf(r.payload)));
      PrintKeyed(DetachedKey, PrintInt(r.detached));
      PrintSome(DeviceKey, r.device);
      PrintSome(DriverKey, r.driver);
      PrintKeyed(DescKey, Described(r.desc));
      if r.cls == Network { PrintSome(HwaddrKey, r.private); }
      if r.cls == Video { PrintSome(XdriverKey, r.private); }
    }

    method PciWriteDevice(r: Record, p: PciFields)
      requires Valid() && r.payload == Pci(p)
      modifies this
      ensures Valid() && before == old(before + body) + ["-"] && body == Body(r)
    {
      WriteDevice(r);
      PrintKeyed(VendorIdKey, Hex4(p.vendorId));
      PrintKeyed(DeviceIdKey, Hex4(p.deviceId));
      PrintKeyed(SubVendorIdKey, Hex4(p.subVendorId));
      PrintKeyed(SubDeviceIdKey, Hex4(p.subDeviceId));
      PrintKeyed(PciTypeKey, PrintInt(p.pciType));
      PrintKeyed(PcidomKey, PrintHex(U32(p.pcidom), 4, ' '));
      PrintKeyed(PcibusKey, PrintHex(U32(p.pcibus), 2, ' '));
      PrintKeyed(PcidevKey, PrintHex(U32(p.pcidev), 2, ' '));
      PrintKeyed(PcifnKey, PrintHex(U32(p.pcifn), 2, ' '));
    }

    method UsbWriteDevice(r: Record, p: UsbFields)
      requires Valid() && r.payload == Usb(p)
      modifies this
      ensures Valid() && before == old(before + body) + ["-"] && body == Body(r)
    {
      WriteDevice(r);
      PrintKeyed(UsbclassKey, PrintInt(p.usbclass));
      PrintKeyed(UsbsubclassKey, PrintInt(p.usbsubclass));
      PrintKeyed(UsbprotocolKey, PrintInt(p.usbprotocol));
      PrintKeyed(UsbbusKey, PrintInt(p.usbbus));
      PrintKeyed(UsblevelKey, PrintInt(p.usblevel));
      PrintKeyed(UsbportKey, PrintInt(p.usbport));
      PrintKeyed(UsbdevKey, PrintInt(p.usbdev));
      PrintKeyed(VendorIdKey, Hex4(p.vendorId));
      PrintKeyed(DeviceIdKey, Hex4(p.deviceId));
      PrintSome(UsbmfrKey, p.usbmfr);
      PrintSome(UsbprodKey, p.usbprod);
    }

    method ScsiWriteDevice(r: Record, p: ScsiFields)
      requires Valid() && r.payload == Scsi(p)
      modifies this
      ensures Valid() && before == old(before + body) + ["-"] && body == Body(r)
    {
      WriteDevice(r);
      PrintKeyed(HostKey, PrintInt(S32(p.host)));
      PrintKeyed(IdKey, PrintInt(S32(p.id)));
      PrintKeyed(ChannelKey, PrintInt(S32(p.channel)));
      PrintKeyed(LunKey, PrintInt(S32(p.lun)));
    }

    method DdcWriteDevice(r: Record, p: DdcFields)
      requires Valid() && r.payload == Ddc(p) && Ended(p)
      modifies this
      ensures Valid() && before == old(before + body) + ["-"] && body == Body(r)
    {
      WriteDevice(r);
      PrintSome(IdKey, p.id);
      PrintNonzero(HorizSyncMinKey, p.horizSyncMin);
      PrintNonzero(HorizSyncMaxKey, p.horizSyncMax);
      PrintNonzero(VertRefreshMinKey, p.vertRefreshMin);
      PrintNonzero(VertRefreshMaxKey, p.vertRefreshMax);
      if p.modes != [] { WriteModes(p.modes); }
      PrintNonzero(MemKey, p.mem);
    }

    // The loop of ddcWriteDevice over the mode array.
    method WriteModes(modes: seq<int>)
      requires Valid() && ModesEnd(modes, 0)
      modifies this
      ensures Valid() && before == old(before) && body == ModesBody(old(body), modes, 0)
    {
      var x := 0;
      while modes[x] != 0
        invariant Valid() && before == old(before) && ModesEnd(modes, x)
        invariant ModesBody(body, modes, x) == ModesBody(old(body), modes, 0)
        decreases |modes| - x
      {
        PrintKeyed(ModeKey, ModeText(modes[x], modes[x + 1]));
        x := x + 2;
      }
    }

    // devlist[x]->writeDevice
    method WriteOne(r: Record)
      requires Valid() && Writable(r)
      modifies this
      ensures Valid() && before == old(before + body) + ["-"] && body == Body(r)
    {
      match r.payload
      case Plain(_) => WriteDevice(r);
      case Pci(p) => PciWriteDevice(r, p);
      case Usb(p) => UsbWriteDevice(r, p);
      case Scsi(p) => ScsiWriteDevice(r, p);
      case Ddc(p) => DdcWriteDevice(r, p);
    }
  }

  // writeDevices; None when there is nothing to write.
  method WriteDevices(devlist: seq<Record>) returns (file: Option<string>)
    requires forall r :: r in devlist ==> Writable(r)
    ensures file == if devlist == [] then None else Some(Unlines(FileLines(devlist)))
  {
    if devlist == [] { return None; }
    var out := new Output();
    var x := 0;
    assert out.before + out.body + FileLines(devlist) == FileLines(devlist) && devlist[0..] == devlist;
    while x < |devlist|
      invariant 0 <= x <= |devlist| && out.Valid() && fresh(out)
      invariant out.before + out.body + FileLines(devlist[x..]) == FileLines(devlist)
    {
      ghost var done := out.before + out.body;
      out.WriteOne(devlist[x]);
      NextDevice(done, devlist, x);
      x := x + 1;
    }
    assert out.before + out.body + FileLines(devlist[x..]) == out.before + out.body;
    return Some(out.text);
  }

  lemma NextDevice(done: seq<string>, rs: seq<Record>, x: nat)
    requires x < |rs| && forall r :: r in rs ==> Writable(r)
    ensures done + ["-"] + Body(rs[x]) + FileLines(rs[x + 1..]) == done + FileLines(rs[x..])
  {
    assert rs[x..][1..] == rs[x + 1..];
    var a, b, c := ["-"], Body(rs[x]), FileLines(rs[x + 1..]);
    assert done + a + b + c == done + (a + b + c);
  }

  lemma {:induction false} UnlinesConcat(a: seq<string>, b: seq<string>)
    ensures Unlines(a + b) == Unlines(a) + Unlines(b)
  {
    if a == [] {
      assert a + b == b;
    } else {
      assert (a + b)[1..] == a[1..] + b;
      UnlinesConcat(a[1..], b);
    }
  }

  lemma UnlinesOne(lines: seq<string>, line: string)
    ensures Unlines(lines + [line]) == Unlines(lines) + line + "\n"
  {
    UnlinesConcat(lines, [line]);
    assert [line][1..] == [];
  }

  // --------------------------------------------------------------- the readers

  class Input {
    var rest: string

    constructor (text: string)
      ensures rest == text
    {
      rest := text;
    }

    // fgets with the readers' buffer
    method FGets() returns (line: Option<string>)
      modifies this
      ensures old(rest) == "" <==> line.None?
      ensures line.None? ==> rest == old(rest)
      ensures line.Some? ==> var n := Taken(old(rest)); line.value == old(rest)[..n] && rest == old(rest)[n..]
    {
      if rest == "" { return None; }
      var n := 0;
      while n < BUFFER - 1 && n < |rest| && (n == 0 || rest[n - 1] != '\n')
        invariant n <= BUFFER - 1 && n <= |rest|
        invariant forall i :: 0 <= i < n - 1 ==> rest[i] != '\n'
      {
        n := n + 1;
      }
      TakenIs(rest, n);
      line := Some(rest[..n]);
      rest := rest[n..];
    }

    // fgets of a whole line of a readable text.
    method NextLine() returns (line: Option<string>)
      requires Readable(rest)
      modifies this
      ensures Readable(rest)
      ensures if Split(old(rest)) == [] then line.None? && rest == old(rest)
              else line == Some(Split(old(rest))[0] + "\n") && Split(rest) == Split(old(rest))[1..]
      ensures line.Some? ==> |rest| < |old(rest)|
    {
      ghost var all := rest;
      line := FGets();
      if line.Some? { LineRead(all); }
    }

    method ReadDevice() returns (retdev: Option<Record>)
      requires Readable(rest)
      modifies this
      ensures Readable(rest)
      ensures ReadResult(retdev, Split(rest)) == ReadOne(Split(old(rest)), None)
      ensures retdev.Some? ==> |rest| < |old(rest)|
    {
      retdev := None;
      while true
        invariant Readable(rest) && |rest| <= |old(rest)|
        invariant ReadOne(Split(rest), retdev) == ReadOne(Split(old(rest)), None)
        invariant retdev.Some? ==> |rest| < |old(rest)|
        decreases |rest|
      {
        var line := NextLine();
        if line.None? { break; }
        var linebuf := line.value[..|line.value| - 1];
        if linebuf == "-" { break; }
        if retdev.None? { retdev := Some(EMPTY); }
        retdev := Some(ParseLine(retdev.value, linebuf));
      }
    }

    // The first loop of readDevs, on lines of any length; false at the end of the file.
    method FindSeparator() returns (found: bool)
      modifies this
      ensures AfterSeparator(old(rest)) == if found then Some(rest) else None
    {
      var linebuf := "";
      while linebuf != "-\n"
        invariant linebuf != "-\n" ==> AfterSeparator(rest) == AfterSeparator(old(rest))
        invariant linebuf == "-\n" ==> AfterSeparator(old(rest)) == Some(rest)
        decreases |rest|, linebuf != "-\n"
      {
        var line := FGets();
        if line.None? { return false; }
        linebuf := line.value;
      }
      return true;
    }

    // readDevs before the sort; None is the NULL it returns without a separator.
    method ReadDevs() returns (retdevs: Option<seq<Record>>)
      requires AfterSeparator(rest).Some? ==> Readable(AfterSeparator(rest).value)
      modifies this
      ensures retdevs == ReadText(old(rest))
    {
      hide Split, ReadOne, AfterSeparator;
      var found := FindSeparator();
      if !found { return None; }
      ghost var body := Split(rest);
      var devs: seq<Record> := [];
      while true
        invariant Readable(rest)
        invariant ReadAll(body) == devs + ReadAll(Split(rest))
        decreases |rest|
      {
        ghost var lines, done := Split(rest), devs;
        var dev := ReadDevice();
        if dev.None? {
          assert done + ReadAll(lines) == devs;
          break;
        }
        devs := devs + [dev.value];
        assert done + ([dev.value] + ReadAll(Split(rest))) == devs + ReadAll(Split(rest));
      }
      return Some(devs);
    }
  }

  lemma TakenIs(text: string, n: nat)
    requires text != "" && 0 < n < BUFFER && n <= |text|
    requires forall i :: 0 <= i < n - 1 ==> text[i] != '\n'
    requires n == BUFFER - 1 || n == |text| || text[n - 1] == '\n'
    ensures n == Taken(text)
  {
    hide IndexFrom;
    var i := IndexFrom(text, '\n');
    assert i >= n - 1;
    assert text[n - 1] == '\n' ==> i == n - 1;
  }

  // The first line of a text that ends with a newline.
  lemma FirstLine(text: string)
    requires text != "" && text[|text| - 1] == '\n'
    ensures var i := IndexFrom(text, '\n');
            i < |text| && Split(text) == [text[..i]] + Split(text[i + 1..])
  {
    hide IndexFrom;
    assert IndexFrom(text, '\n') < |text|;
  }

  lemma LineRead(text: string)
    requires Readable(text) && text != ""
    ensures var n := Taken(text);
            && Readable(text[n..]) && Split(text) != [] && text[..n] == Split(text)[0] + "\n"
            && Split(text[n..]) == Split(text)[1..]
  {
    hide IndexFrom, Split;
    FirstLine(text);
    var i, n := IndexFrom(text, '\n'), Taken(text);
    assert text[..i] in Split(text);
    assert n == i + 1 && text[..n] == text[..i] + "\n";
    assert text == text[..n] + text[n..];
    Shorter(text, text[..n], text[n..]);
  }

  lemma Shorter(text: string, line: string, rest: string)
    requires Readable(text) && text == line + rest
    requires Split(text) != [] && Split(rest) == Split(text)[1..]
    ensures Readable(rest)
  {
    assert forall i :: 0 <= i < |rest| ==> rest[i] == text[|line| + i];
    if rest != "" { assert rest[|rest| - 1] == text[|text| - 1]; }
    assert forall l :: l in Split(rest) ==> l in Split(text);
  }
}
