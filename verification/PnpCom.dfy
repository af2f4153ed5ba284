// The PnP-COM identifier parser: find the framed block, translate a 6-bit block
// in place, split the extension fields and verify the checksum.
module PnpCom {

  // Bytes are integers; their range 0 .. 255 is stated where it matters.
  type bytes = seq<int>

  predicate IsBytes(v: bytes) {
    forall k :: 0 <= k < |v| ==> 0 <= v[k] < 256
  }

  const BEGIN_7BIT: int := 0x28
  const BEGIN_6BIT: int := 0x08
  const END_7BIT: int := 0x29
  const END_6BIT: int := 0x09
  const EXTEND_7BIT: int := 0x5c
  const EXTEND_6BIT: int := 0x3c
  const SHIFT: int := 0x20

  // The extension strings; an absent one is empty, as after the memset.
  datatype Extensions = Extensions(serial: bytes, className: bytes, driverId: bytes, userName: bytes)

  const NO_EXTENSIONS := Extensions([], [], [], [])

  datatype PnpId = PnpId(
    sixBit: bool, other: bytes, rev: bytes, eisa: bytes, product: bytes, exts: Extensions, checksum: bytes)

  // Overrun marks the inputs on which the parser reads or copies outside its buffer.
  datatype Outcome = Parsed(id: PnpId) | Rejected | Overrun

  predicate IsEnd(b: int) { b == END_7BIT || b == END_6BIT }

  predicate IsExtend(b: int) { b == EXTEND_7BIT || b == EXTEND_6BIT }

  // What strpbrk stops at, the terminating NUL included.
  predicate Stops(b: int, extend: bool) { b == 0 || IsEnd(b) || (extend && IsExtend(b)) }

  // A buffer with its terminator.
  predicate Terminated(buf: bytes) { |buf| > 0 && buf[|buf| - 1] == 0 }

  // memchr: the first index from `from` on that holds b, |s| if none.
  function IndexOf(s: bytes, from: nat, b: int): (i: nat)
    requires from <= |s|
    ensures from <= i <= |s|
    ensures i < |s| ==> s[i] == b
    ensures forall k :: from <= k < i ==> s[k] != b
    decreases |s| - from
  {
    if from == |s| || s[from] == b then from else IndexOf(s, from + 1, b)
  }

  // strpbrk: the first index from `from` on that holds a delimiter or the NUL.
  function Scan(buf: bytes, from: nat, extend: bool): (i: nat)
    requires Terminated(buf) && from < |buf|
    ensures from <= i < |buf|
    decreases |buf| - from
  {
    if Stops(buf[from], extend) then from else Scan(buf, from + 1, extend)
  }

  // Scan finds i exactly when buf[i] is the first stop from `from` on.
  lemma {:induction false} ScanIs(buf: bytes, from: nat, extend: bool, i: nat)
    requires Terminated(buf) && from <= i < |buf|
    ensures Scan(buf, from, extend) == i
       <==> Stops(buf[i], extend) && forall k :: from <= k < i ==> !Stops(buf[k], extend)
    decreases |buf| - from
  {
    if !Stops(buf[from], extend) && from < i { ScanIs(buf, from + 1, extend, i); }
  }

  // ------------------------------------------------------- the start of the block

  datatype Begin = NoBlock | Block(start: nat, sixBit: bool)

  function FindBlock(id: bytes): (r: Begin)
    ensures r.Block? ==> r.start < |id|
    ensures r.Block? && r.sixBit ==> id[r.start] == BEGIN_6BIT && exists k :: r.start <= k < |id| && id[k] == END_6BIT
  {
    var p1 := IndexOf(id, 0, BEGIN_7BIT);
    var p2 := IndexOf(id, 0, BEGIN_6BIT);
    var ok1 := p1 < |id| && IndexOf(id, p1, END_7BIT) < |id|;
    var ok2 := p2 < |id| && IndexOf(id, p2, END_6BIT) < |id|;
    if ok1 && ok2 then
      if p1 < p2 then Block(p1, false) else Block(p2, true)
    else if ok1 then Block(p1, false)
    else if ok2 then Block(p2, true)
    else NoBlock
  }

  // The first begin byte of its kind, with an end byte of the kind somewhere behind it.
  ghost predicate Opens(id: bytes, start: nat, sixBit: bool) {
    var begin, end := if sixBit then 0x08 else 0x28, if sixBit then 0x09 else 0x29;
    && start < |id| && id[start] == begin && (forall k :: 0 <= k < start ==> id[k] != begin)
    && exists k :: start <= k < |id| && id[k] == end
  }

  // The block that is found opens nearest to the start, and there is none exactly if
  // nothing opens one.
  lemma FindBlockIs(id: bytes, start: nat)
    ensures FindBlock(id) == Block(start, false)
       <==> Opens(id, start, false) && forall other :: Opens(id, other, true) ==> start < other
    ensures FindBlock(id) == Block(start, true)
       <==> Opens(id, start, true) && forall other :: Opens(id, other, false) ==> start < other
    ensures FindBlock(id) == NoBlock <==> forall s :: !Opens(id, s, false) && !Opens(id, s, true)
  {
    hide Opens, IndexOf;
    OpensIs(id, false);
    OpensIs(id, true);
    assert IndexOf(id, 0, BEGIN_7BIT) < |id| ==> IndexOf(id, 0, BEGIN_7BIT) != IndexOf(id, 0, BEGIN_6BIT);
  }

  lemma OpensIs(id: bytes, sixBit: bool)
    ensures var begin, end := if sixBit then BEGIN_6BIT else BEGIN_7BIT, if sixBit then END_6BIT else END_7BIT;
            var p := IndexOf(id, 0, begin);
            && (p < |id| && IndexOf(id, p, end) < |id| <==> Opens(id, p, sixBit))
            && forall s :: Opens(id, s, sixBit) ==> s == p
  {
  }

  function Shifted(b: int): int { (b + SHIFT) % 256 }

  // The bytes the translation loop changes: from the begin byte up to the first
  // 6-bit end byte, except the two revision bytes (but the end byte always).
  predicate Translates(start: int, stop: int, k: int) {
    start <= k <= stop && (k == stop || (k != start + 1 && k != start + 2))
  }

  function Translate(buf: bytes, start: nat): (r: bytes)
    requires start <= |buf|
    ensures |r| == |buf|
  {
    var stop := IndexOf(buf, start, END_6BIT);
    seq(|buf|, k requires 0 <= k < |buf| => if Translates(start, stop, k) then Shifted(buf[k]) else buf[k])
  }

  // The translated copy of the string, with its terminator.
  function Translated(id: bytes, start: nat): (r: bytes)
    requires exists k :: start <= k < |id| && id[k] == END_6BIT
    ensures Terminated(r) && |r| == |id| + 1
  {
    var k :| start <= k < |id| && id[k] == END_6BIT;
    assert (id + [0])[k] == END_6BIT;
    Translate(id + [0], start)
  }

  // ---------------------------------------------------------- extension fields

  datatype ExtResult = Done(cur: nat, stage: nat, exts: Extensions) | ExtRejected | ExtOverrun

  // Whether the parser rejects a field of n bytes at this stage.
  predicate BadLength(stage: nat, n: int) {
    (stage == 0 && n != 8 && n != 0) || (stage == 1 && n > 33) || ((stage == 2 || stage == 3) && n > 41)
  }

  function Store(e: Extensions, stage: nat, v: bytes): Extensions {
    if stage == 0 then e.(serial := v)
    else if stage == 1 then e.(className := v)
    else if stage == 2 then e.(driverId := v)
    else if stage == 3 then e.(userName := v)
    else e
  }

  // What one turn of the extension loop does: leave it, or go on at `next`.
  datatype Turn = Leave(result: ExtResult) | GoOn(next: nat, exts: Extensions)

  function TakeTurn(buf: bytes, cur: nat, stage: nat, exts: Extensions): (t: Turn)
    requires Terminated(buf) && cur < |buf|
    ensures t.GoOn? ==> cur < t.next < |buf|
  {
    if !IsExtend(buf[cur]) then Leave(Done(cur, stage, exts))
    else
      var first := cur + 1;
      var stop := Scan(buf, first, true);
      var last := if IsEnd(buf[stop]) then stop - 2 else stop;
      if buf[stop] == 0 || BadLength(stage, last - first) then Leave(ExtRejected)
      else if stage > 3 then GoOn(first, exts)
      else if last < first then Leave(ExtOverrun)
      else GoOn(last, Store(exts, stage, buf[first..last]))
  }

  function ScanExtensions(buf: bytes, cur: nat, stage: nat, exts: Extensions): (r: ExtResult)
    requires Terminated(buf) && cur < |buf|
    ensures r.Done? ==> cur <= r.cur < |buf|
    decreases |buf| - cur
  {
    match TakeTurn(buf, cur, stage, exts)
    case Leave(r) => r
    case GoOn(next, e) => ScanExtensions(buf, next, stage + 1, e)
  }

  // ------------------------------------------------------------------ checksum

  // What position k adds to the checksum of the block start..end.
  function Weight(buf: bytes, start: nat, end: nat, sixBit: bool, k: nat): int
    requires k < |buf|
  {
    if k == end - 2 || k == end - 1 then 0
    else if sixBit && k != start + 1 && k != start + 2 then buf[k] - SHIFT
    else buf[k]
  }

  function Weights(buf: bytes, start: nat, end: nat, sixBit: bool, lo: nat, hi: nat): int
    requires lo <= hi <= |buf|
    decreases hi
  {
    if lo == hi then 0
    else Weights(buf, start, end, sixBit, lo, hi - 1) + Weight(buf, start, end, sixBit, hi - 1)
  }

  function HexDigit(n: nat): int
    requires n < 16
  {
    if n < 10 then 0x30 + n else 0x41 + n - 10
  }

  // sprintf "%.2X" of one byte.
  function Hex2(n: nat): bytes
    requires n < 256
  {
    [HexDigit(n / 16), HexDigit(n % 16)]
  }

  // ---------------------------------------------------------------- the parser

  // The identifier as far as the extension loop has filled it.
  function BaseId(buf: bytes, start: nat, sixBit: bool, exts: Extensions): PnpId
    requires start + 10 <= |buf|
  {
    PnpId(sixBit, buf[..start], buf[start + 1..start + 3], buf[start + 3..start + 6],
          buf[start + 6..start + 10], exts, [0, 0])
  }

  // The end of the parser: a checksum is expected after at least one extension.
  function Verdict(buf: bytes, start: nat, cur: nat, end: nat, stage: nat, base: PnpId): Outcome
    requires start <= end < |buf| && cur + 2 <= |buf|
  {
    if stage == 0 then Parsed(base)
    else if buf[cur..cur + 2] == Hex2(Weights(buf, start, end, base.sixBit, start, end + 1) % 256)
    then Parsed(base.(checksum := buf[cur..cur + 2]))
    else Rejected
  }

  // Parsing the terminated, translated buffer from the begin byte on.
  function ParseBlock(buf: bytes, start: nat, sixBit: bool): Outcome
    requires Terminated(buf) && start < |buf|
  {
    if start + 10 >= |buf| then Overrun
    else
      match ScanExtensions(buf, start + 10, 0, NO_EXTENSIONS)
      case ExtRejected => Rejected
      case ExtOverrun => Overrun
      case Done(cur, stage, exts) =>
        var end := Scan(buf, cur, false);
        if buf[end] == 0 then Rejected
        else Verdict(buf, start, cur, end, stage, BaseId(buf, start, sixBit, exts))
  }

  function Parse(id: bytes): Outcome {
    match FindBlock(id)
    case NoBlock => Rejected
    case Block(start, sixBit) =>
      if start > 17 then Rejected
      else ParseBlock(if sixBit then Translated(id, start) else id + [0], start, sixBit)
  }

  // The translation loop, in place.
  method TranslateInPlace(buf: array<int>, start: nat)
    requires start < buf.Length
    requires exists k :: start <= k < buf.Length && buf[k] == END_6BIT
    modifies buf
    ensures buf[..] == Translate(old(buf[..]), start)
  {
    ghost var was := buf[..];
    ghost var stop := IndexOf(was, start, END_6BIT);
    var p := start;
    while true
      invariant start <= p <= stop < buf.Length
      invariant forall k :: p <= k < buf.Length ==> buf[k] == was[k]
      invariant forall k :: 0 <= k < p ==>
        buf[k] == if Translates(start, stop, k) then Shifted(was[k]) else was[k]
      decreases stop - p
    {
      if buf[p] == END_6BIT {
        buf[p] := (buf[p] + SHIFT) % 256;
        break;
      } else if p != start + 1 && p != start + 2 {
        buf[p] := (buf[p] + SHIFT) % 256;
      }
      p := p + 1;
    }
  }

  lemma ModStep(sum: int, w: int)
    ensures (sum % 0x10000 + w) % 0x10000 == (sum + w) % 0x10000
    ensures sum % 0x10000 % 0x10000 == sum % 0x10000
  {
    var q := sum / 0x10000;
    assert sum == q * 0x10000 + sum % 0x10000;
  }

  lemma ModIs(n: int, k: int, t: int)
    requires n == 256 * k + t && 0 <= t < 256
    ensures n % 256 == t
  {
  }

  lemma ModByte(sum: int)
    ensures sum % 0x10000 % 256 == sum % 256
  {
    var q, r := sum / 0x10000, sum % 0x10000;
    ModIs(sum, 256 * q + r / 256, r % 256);
  }

  // The checksum loop; the accumulator is an unsigned short.
  method Checksum(buf: array<int>, start: nat, end: nat, sixBit: bool) returns (checksum: nat)
    requires start <= end < buf.Length
    ensures checksum == Weights(buf[..], start, end, sixBit, start, end + 1) % 0x10000
  {
    checksum := 0;
    var p := start;
    while p <= end
      invariant start <= p <= end + 1
      invariant checksum == Weights(buf[..], start, end, sixBit, start, p) % 0x10000
    {
      ghost var sum := Weights(buf[..], start, end, sixBit, start, p);
      ghost var w := Weight(buf[..], start, end, sixBit, p);
      ModStep(sum, w);
      assert Weights(buf[..], start, end, sixBit, start, p + 1) == sum + w;
      if p == end - 2 || p == end - 1 {
        p := p + 1;
        continue;
      }
      if p != start + 1 && p != start + 2 {
        checksum := (checksum + (buf[p] - (if sixBit then SHIFT else 0))) % 0x10000;
      } else {
        checksum := (checksum + buf[p]) % 0x10000;
      }
      p := p + 1;
    }
  }

  // parse_pnp_string.
  method ParsePnpString(id: bytes) returns (o: Outcome)
    ensures o == Parse(id)
  {
    var len := |id|;
    var buf := new int[len + 1](k => if 0 <= k < len then id[k] else 0);
    assert buf[..] == id + [0];
    var p1 := IndexOf(id, 0, BEGIN_7BIT);
    var p2 := IndexOf(id, 0, BEGIN_6BIT);
    var ok1 := p1 < len && IndexOf(id, p1, END_7BIT) < len;
    var ok2 := p2 < len && IndexOf(id, p2, END_6BIT) < len;
    var start;
    if ok1 && ok2 {
      start := if p1 < p2 then p1 else p2;
    } else if ok1 {
      start := p1;
    } else if ok2 {
      start := p2;
    } else {
      return Rejected;
    }
    if start > 17 { return Rejected; }
    var sixBit := start == p2;
    if sixBit {
      ghost var k := IndexOf(id, p2, END_6BIT);
      assert buf[k] == END_6BIT;
      TranslateInPlace(buf, start);
    }
    o := ParseFields(buf, start, sixBit);
  }

  // The extension loop of parse_pnp_string.
  method ReadExtensions(buf: array<int>, from: nat) returns (r: ExtResult)
    requires Terminated(buf[..]) && from < buf.Length
    ensures r == ScanExtensions(buf[..], from, 0, NO_EXTENSIONS)
  {
    hide ScanExtensions, Scan, BadLength, Store, Terminated, IsExtend, IsEnd;
    ghost var b := buf[..];
    var exts := NO_EXTENSIONS;
    var cur, stage := from, 0;
    while IsExtend(buf[cur])
      invariant from <= cur < buf.Length && stage >= 0
      invariant ScanExtensions(b, cur, stage, exts) == ScanExtensions(b, from, 0, NO_EXTENSIONS)
      decreases buf.Length - cur
    {
      OneTurn(b, cur, stage, exts);
      cur := cur + 1;
      var stop := Scan(buf[..], cur, true);
      assert b == buf[..] && b[stop] == buf[stop];
      if buf[stop] == 0 { return ExtRejected; }
      var last: int := stop;
      if IsEnd(buf[last]) { last := last - 2; }
      var n := last - cur;
      if BadLength(stage, n) { return ExtRejected; }
      if stage <= 3 {
        if n < 0 { return ExtOverrun; }
        exts := Store(exts, stage, buf[cur..last]);
        cur := last;
      }
      stage := stage + 1;
    }
    OneTurn(b, cur, stage, exts);
    return Done(cur, stage, exts);
  }

  lemma OneTurn(buf: bytes, cur: nat, stage: nat, exts: Extensions)
    requires Terminated(buf) && cur < |buf|
    ensures ScanExtensions(buf, cur, stage, exts)
         == match TakeTurn(buf, cur, stage, exts)
            case Leave(r) => r
            case GoOn(next, e) => ScanExtensions(buf, next, stage + 1, e)
  {
  }

  // The rest of parse_pnp_string, from the base fields on.
  method ParseFields(buf: array<int>, start: nat, sixBit: bool) returns (o: Outcome)
    requires Terminated(buf[..]) && start < buf.Length
    ensures o == ParseBlock(buf[..], start, sixBit)
  {
    ghost var b := buf[..];
    if start + 10 >= buf.Length { return Overrun; }
    var scanned := ReadExtensions(buf, start + 10);
    if scanned.ExtRejected? { return Rejected; }
    if scanned.ExtOverrun? { return Overrun; }
    var cur := scanned.cur;
    var end := Scan(buf[..], cur, false);
    assert b[end] == buf[end];
    if buf[end] == 0 { return Rejected; }
    var id := PnpId(sixBit, buf[..start], buf[start + 1..start + 3], buf[start + 3..start + 6],
                    buf[start + 6..start + 10], scanned.exts, [0, 0]);
    assert id == BaseId(b, start, sixBit, scanned.exts);
    o := CheckBlock(buf, start, cur, end, scanned.stage, id);
  }

  // The checksum test that ends parse_pnp_string.
  method CheckBlock(buf: array<int>, start: nat, cur: nat, end: nat, stage: nat, base: PnpId) returns (o: Outcome)
    requires start <= end < buf.Length && cur + 2 <= buf.Length
    ensures o == Verdict(buf[..], start, cur, end, stage, base)
  {
    var id := base;
    if stage != 0 {
      id := id.(checksum := buf[cur..cur + 2]);
      var checksum := Checksum(buf, start, end, id.sixBit);
      ModByte(Weights(buf[..], start, end, id.sixBit, start, end + 1));
      if Hex2(checksum % 256) != id.checksum { return Rejected; }
    }
    return Parsed(id);
  }
}
