// An encoder for PnP-COM identifiers and what the parser does with its output:
// round trip through both encodings, and detection of every single-byte error.
module PnpTheory {
  import opened PnpCom

  datatype Ident = Ident(prefix: bytes, rev: bytes, eisa: bytes, product: bytes, fields: seq<bytes>)

  // The bytes that end a field, with the NUL that ends the buffer.
  predicate Delimits(b: int) { b == 0 || b == 0x29 || b == 0x09 || b == 0x5c || b == 0x3c }

  predicate Clean(v: bytes) {
    forall k :: 0 <= k < |v| ==> !Delimits(v[k])
  }

  predicate CleanFields(fields: seq<bytes>) {
    forall j :: 0 <= j < |fields| ==> Clean(fields[j])
  }

  // A serial number has 8 bytes or none, a class name at most 33, a driver and a user name
  // at most 41.
  predicate Admits(k: nat, n: nat) {
    if k == 0 then n == 0 || n == 8 else if k == 1 then n <= 33 else n <= 41
  }

  // Fields k, k + 1, ... have lengths that are admitted.
  predicate FieldsFit(k: nat, fields: seq<bytes>) {
    forall j :: 0 <= j < |fields| ==> Admits(k + j, |fields[j]|)
  }

  // The identifiers an encoding can carry, with up to four fields. A 6-bit block ends at its
  // first end byte, so no revision byte and no translated base byte may look like one.
  predicate Framed(x: Ident, sixBit: bool) {
    && 0x28 !in x.prefix && 0x08 !in x.prefix
    && IsBytes(x.prefix) && IsBytes(x.rev) && IsBytes(x.eisa) && IsBytes(x.product)
    && IsBytes(ExtBytes(x.fields))
    && |x.rev| == 2 && |x.eisa| == 3 && |x.product| == 4 && CleanFields(x.fields) && |x.fields| <= 4
    && (sixBit ==> 0x09 !in x.rev && 0x29 !in x.eisa && 0x29 !in x.product)
  }

  // What the parser has room for.
  predicate Fits(x: Ident) { |x.prefix| <= 17 && FieldsFit(0, x.fields) }

  predicate WellFormed(x: Ident, sixBit: bool) { Framed(x, sixBit) && Fits(x) }

  // ------------------------------------------------------------- the encoder

  function Lowered(b: int): int { (b + 224) % 256 }

  function Raised(b: int): int { (b + 0x20) % 256 }

  function Lower(v: bytes): (r: bytes)
    ensures |r| == |v|
  {
    seq(|v|, k requires 0 <= k < |v| => Lowered(v[k]))
  }

  function ExtBytes(fields: seq<bytes>): bytes {
    if fields == [] then [] else [0x5c] + fields[0] + ExtBytes(fields[1..])
  }

  function Content(x: Ident): bytes { x.eisa + x.product + ExtBytes(x.fields) }

  function Begin(sixBit: bool): int { if sixBit then 0x08 else 0x28 }

  function End(sixBit: bool): int { if sixBit then 0x09 else 0x29 }

  function Code(v: bytes, sixBit: bool): bytes { if sixBit then Lower(v) else v }

  // The transmitted string, with a given checksum field.
  function Raw(x: Ident, ck: bytes, sixBit: bool): bytes {
    x.prefix + [Begin(sixBit)] + x.rev + Code(Content(x) + ck, sixBit) + [End(sixBit)]
  }

  function SumOf(v: bytes): int {
    if v == [] then 0 else v[0] + SumOf(v[1..])
  }

  // The upper-case hexadecimal digits.
  const HEX: bytes := [0x30, 0x31, 0x32, 0x33, 0x34, 0x35, 0x36, 0x37, 0x38, 0x39, 0x41, 0x42, 0x43, 0x44, 0x45, 0x46]

  function HexPair(n: nat): bytes
    requires n < 256
  {
    [HEX[n / 16], HEX[n % 16]]
  }

  lemma HexPairIs(n: nat)
    requires n < 256
    ensures Hex2(n) == HexPair(n)
  {
    HexDigitIs(n / 16);
    HexDigitIs(n % 16);
  }

  lemma HexDigitIs(n: nat)
    requires n < 16
    ensures HexDigit(n) == HEX[n]
  {
  }

  // The checksum: the sum of all transmitted bytes of the block except itself.
  function Check(x: Ident, sixBit: bool): bytes {
    if x.fields == [] then []
    else HexPair(SumOf([Begin(sixBit)] + x.rev + Code(Content(x), sixBit) + [End(sixBit)]) % 256)
  }

  function Encode(x: Ident, sixBit: bool): bytes { Raw(x, Check(x, sixBit), sixBit) }

  function Field(fields: seq<bytes>, k: nat): bytes { if k < |fields| then fields[k] else [] }

  function ExtensionsOf(fields: seq<bytes>): Extensions {
    Extensions(Field(fields, 0), Field(fields, 1), Field(fields, 2), Field(fields, 3))
  }

  // What the parser should recover.
  function IdOf(x: Ident, ck: bytes, sixBit: bool): PnpId {
    PnpId(sixBit, x.prefix, x.rev, x.eisa, x.product, ExtensionsOf(x.fields), if ck == [] then [0, 0] else ck)
  }

  // -------------------------------------------------------------------- sums

  lemma {:induction false} SumConcat(a: bytes, b: bytes)
    ensures SumOf(a + b) == SumOf(a) + SumOf(b)
  {
    if a == [] {
      assert a + b == b;
    } else {
      assert (a + b)[1..] == a[1..] + b;
      SumConcat(a[1..], b);
    }
  }

  lemma {:induction false} SumUpdate(v: bytes, k: nat, b: int)
    requires k < |v|
    ensures SumOf(v[k := b]) == SumOf(v) - v[k] + b
  {
    if k == 0 {
      assert v[k := b][1..] == v[1..];
    } else {
      assert v[k := b][1..] == v[1..][k - 1 := b];
      SumUpdate(v[1..], k - 1, b);
    }
  }

  // a and b leave the same remainder modulo 256.
  ghost predicate Congruent(a: int, b: int) { exists q: int :: a == b + 256 * q }

  lemma CongruentMod(a: int, b: int)
    requires Congruent(a, b)
    ensures a % 256 == b % 256
  {
    var q :| a == b + 256 * q;
    ModIs(a, b / 256 + q, b % 256);
  }

  lemma {:induction false} LowerSum(v: bytes)
    requires IsBytes(v)
    ensures Congruent(SumOf(Lower(v)), SumOf(v) - 0x20 * |v|)
  {
    if v == [] {
      assert SumOf(Lower(v)) == SumOf(v) - 0x20 * |v| + 256 * 0;
    } else {
      assert Lower(v)[1..] == Lower(v[1..]);
      LowerSum(v[1..]);
      var q :| SumOf(Lower(v[1..])) == SumOf(v[1..]) - 0x20 * |v[1..]| + 256 * q;
      var d := if v[0] < 0x20 then 1 else 0;
      assert Lowered(v[0]) == v[0] - 0x20 + 256 * d;
      assert SumOf(Lower(v)) == SumOf(v) - 0x20 * |v| + 256 * (q + d);
    }
  }

  lemma HexPairInjective(m: nat, n: nat)
    requires m < 256 && n < 256 && HexPair(m) == HexPair(n)
    ensures m == n
  {
    assert HexPair(m)[0] == HexPair(n)[0] && HexPair(m)[1] == HexPair(n)[1];
    HexInjective(m / 16, n / 16);
    HexInjective(m % 16, n % 16);
  }

  lemma HexInjective(m: nat, n: nat)
    requires m < 16 && n < 16 && HEX[m] == HEX[n]
    ensures m == n
  {
    HexDigitIs(m);
    HexDigitIs(n);
  }

  // ------------------------------------------------------- finding the block

  lemma IndexOfIs(s: bytes, from: nat, b: int, i: nat)
    requires from <= i < |s| && s[i] == b
    requires forall k :: from <= k < i ==> s[k] != b
    ensures IndexOf(s, from, b) == i
  {
  }

  lemma BlockIsFound(x: Ident, ck: bytes, sixBit: bool, tail: bytes)
    requires Framed(x, sixBit)
    ensures FindBlock(Raw(x, ck, sixBit) + tail) == Block(|x.prefix|, sixBit)
  {
    var id := Raw(x, ck, sixBit) + tail;
    var p := |x.prefix|;
    var last := |Raw(x, ck, sixBit)| - 1;
    assert id[..p] == x.prefix && id[p] == Begin(sixBit) && id[last] == End(sixBit);
    assert forall k :: 0 <= k < p ==> id[k] == x.prefix[k];
    IndexOfIs(id, 0, Begin(sixBit), p);
    assert IndexOf(id, 0, Begin(!sixBit)) > p;
    assert IndexOf(id, p, End(sixBit)) <= last;
  }

  // ------------------------------------------------- undoing the 6-bit encoding

  lemma ShiftLower(b: int)
    requires 0 <= b < 256
    ensures Raised(Lowered(b)) == b && Lowered(Raised(b)) == b
    ensures Lowered(b) == 0x09 <==> b == 0x29
  {
    assert Lowered(b) == if b < 0x20 then b + 0xE0 else b - 0x20;
    assert Raised(b) == Shifted(b) == if b < 0xE0 then b + 0x20 else b - 0xE0;
  }

  lemma {:induction false} ExtBytesNoEnd(fields: seq<bytes>)
    requires CleanFields(fields)
    ensures 0x29 !in ExtBytes(fields)
    decreases |fields|
  {
    if fields != [] {
      CleanTail(fields);
      ExtBytesNoEnd(fields[1..]);
      forall j | 0 <= j < |fields[0]| ensures fields[0][j] != 0x29 {
        assert !Delimits(fields[0][j]);
      }
    }
  }

  lemma CleanTail(fields: seq<bytes>)
    requires CleanFields(fields) && fields != []
    ensures Clean(fields[0]) && CleanFields(fields[1..])
  {
  }

  // No 6-bit end byte comes before the last byte of the frame.
  lemma NoEarlyEnd(x: Ident, ck: bytes, rest: bytes)
    requires Framed(x, true) && 0x29 !in ck && IsBytes(ck)
    ensures var six, p, body := Raw(x, ck, true) + rest, |x.prefix|, Content(x) + ck;
            && IsBytes(body) && p + 3 + |body| < |six|
            && forall k :: p <= k < p + 3 + |body| ==> six[k] != 0x09
  {
    var six, p, body := Raw(x, ck, true) + rest, |x.prefix|, Content(x) + ck;
    ExtBytesNoEnd(x.fields);
    assert 0x29 !in body && IsBytes(body);
    SixBitLayout(x, ck, rest);
    hide Raw, Content, ExtBytes, Lowered, IndexOf;
    forall k | p <= k < p + 3 + |body| ensures six[k] != 0x09 {
      if k >= p + 3 { ShiftLower(body[k - p - 3]); assert body[k - p - 3] in body; }
      else if k > p { assert x.rev[k - p - 1] in x.rev; }
    }
  }

  // The in-place translation of a 6-bit string gives the 7-bit string.
  lemma TranslateUndoesLower(x: Ident, ck: bytes, rest: bytes)
    requires Framed(x, true) && 0x29 !in ck && IsBytes(ck)
    ensures Translate(Raw(x, ck, true) + rest, |x.prefix|) == Raw(x, ck, false) + rest
  {
    var p, n := |x.prefix|, |Content(x) + ck|;
    var six, seven := Raw(x, ck, true) + rest, Raw(x, ck, false) + rest;
    var body := Content(x) + ck;
    SixBitLayout(x, ck, rest);
    NoEarlyEnd(x, ck, rest);
    IndexOfIs(six, p, 0x09, p + 3 + n);
    hide Raw, Content, ExtBytes, Lowered, Framed, IndexOf;
    forall k | 0 <= k < |six| ensures Translate(six, p)[k] == seven[k] {
      if p + 3 <= k < p + 3 + n { ShiftLower(body[k - p - 3]); }
    }
  }

  lemma SixBitLayout(x: Ident, ck: bytes, rest: bytes)
    requires Framed(x, true)
    ensures var six, seven := Raw(x, ck, true) + rest, Raw(x, ck, false) + rest;
            var p, body := |x.prefix|, Content(x) + ck;
            && |six| == |seven| == p + 4 + |body| + |rest|
            && six[p] == 0x08 && seven[p] == 0x28
            && six[p + 3 + |body|] == 0x09 && seven[p + 3 + |body|] == 0x29
            && six[p + 1] == seven[p + 1] == x.rev[0] && six[p + 2] == seven[p + 2] == x.rev[1]
            && (forall k :: 0 <= k < p ==> six[k] == seven[k])
            && (forall k :: p + 3 + |body| < k < |six| ==> six[k] == seven[k])
            && (forall k :: p + 3 <= k < p + 3 + |body| ==>
                  six[k] == Lowered(body[k - p - 3]) && seven[k] == body[k - p - 3])
  {
  }

  // --------------------------------------------------------- extension fields

  // Fields k, k + 1, ... stored one after the other.
  function StoreAll(e: Extensions, k: nat, fields: seq<bytes>): Extensions
    decreases |fields|
  {
    if fields == [] then e else StoreAll(Store(e, k, fields[0]), k + 1, fields[1..])
  }

  lemma StoreAllIs(fields: seq<bytes>)
    requires |fields| <= 4
    ensures StoreAll(NO_EXTENSIONS, 0, fields) == ExtensionsOf(fields)
  {
    var e1 := Store(NO_EXTENSIONS, 0, Field(fields, 0));
    var e2 := Store(e1, 1, Field(fields, 1));
    var e3 := Store(e2, 2, Field(fields, 2));
    if |fields| > 1 {
      assert fields[1..][1..] == fields[2..];
      assert StoreAll(e1, 1, fields[1..]) == StoreAll(e2, 2, fields[2..]);
    }
    if |fields| > 2 {
      assert fields[2..][1..] == fields[3..];
      assert StoreAll(e2, 2, fields[2..]) == StoreAll(e3, 3, fields[3..]);
    }
    if |fields| > 3 {
      assert fields[3..][1..] == [];
      assert StoreAll(e3, 3, fields[3..]) == Store(e3, 3, fields[3]);
    }
  }

  // z begins with n bytes of checksum and the end byte.
  predicate Closes(z: bytes, n: nat) {
    n < |z| && Clean(z[..n]) && z[n] == 0x29
  }

  // From the delimiter of field k on, the extension loop stores the remaining fields and
  // stops at the checksum, if their lengths are admitted; else it rejects.
  lemma {:induction false} ExtensionsAreRead(
    buf: bytes, cur: nat, k: nat, e: Extensions, fields: seq<bytes>, z: bytes)
    requires Terminated(buf) && cur < |buf| && CleanFields(fields) && k + |fields| <= 4 && Closes(z, 2)
    requires buf[cur..] == ExtBytes(fields) + z
    ensures ScanExtensions(buf, cur, k, e)
         == if FieldsFit(k, fields) then Done(|buf| - |z|, k + |fields|, StoreAll(e, k, fields)) else ExtRejected
    decreases |fields|
  {
    hide ScanExtensions, FieldsFit, CleanFields, Clean, Closes, Store, StoreAll, Admits, Scan, SeesField;
    StoreAllStep(e, k, fields);
    if fields == [] {
      NoFields();
      assert [] + z == z && buf[cur..] == z;
      LoopEnds(buf, cur, k, e, z, 2);
    } else {
      var f, last := fields[0], cur + 1 + |fields[0]|;
      EndFollows(z);
      CleanTail(fields);
      FieldLayout(buf, cur, fields, z);
      FieldIsRead(buf, cur, f, fields[1..], z);
      TurnTakesField(buf, cur, k, e, f, last);
      FitsTail(k, fields);
      if Admits(k, |f|) { ExtensionsAreRead(buf, last, k + 1, Store(e, k, f), fields[1..], z); }
    }
  }

  lemma StoreAllStep(e: Extensions, k: nat, fields: seq<bytes>)
    ensures StoreAll(e, k, fields) == if fields == [] then e else StoreAll(Store(e, k, fields[0]), k + 1, fields[1..])
    ensures fields == [] ==> FieldsFit(k, fields)
  {
  }

  lemma EndFollows(z: bytes)
    requires Closes(z, 2)
    ensures |z| > 2
  {
  }

  lemma FitsTail(k: nat, fields: seq<bytes>)
    requires fields != []
    ensures FieldsFit(k, fields) <==> Admits(k, |fields[0]|) && FieldsFit(k + 1, fields[1..])
  {
    var more := fields[1..];
    if FieldsFit(k, fields) {
      forall j | 0 <= j < |more| ensures Admits(k + 1 + j, |more[j]|) {
        assert Admits(k + (j + 1), |fields[j + 1]|);
      }
    } else if Admits(k, |fields[0]|) {
      var j :| 0 <= j < |fields| && !Admits(k + j, |fields[j]|);
      assert !Admits(k + 1 + (j - 1), |more[j - 1]|);
    }
  }

  lemma LoopEnds(buf: bytes, cur: nat, k: nat, e: Extensions, z: bytes, n: nat)
    requires Terminated(buf) && cur < |buf| && Closes(z, n) && buf[cur..] == z
    ensures ScanExtensions(buf, cur, k, e) == Done(|buf| - |z|, k, e)
  {
    assert buf[cur] == buf[cur..][0];
    assert n > 0 ==> z[0] == z[..n][0];
  }

  // The loop at position cur sees a field of n bytes.
  predicate SeesField(buf: bytes, cur: nat, n: nat)
    requires Terminated(buf)
  {
    && cur + 1 + n < |buf| && IsExtend(buf[cur])
    && var stop := Scan(buf, cur + 1, true);
       buf[stop] != 0 && cur + 1 + n == if IsEnd(buf[stop]) then stop - 2 else stop
  }

  // One turn of the extension loop.
  lemma TurnTakesField(buf: bytes, cur: nat, k: nat, e: Extensions, f: bytes, last: nat)
    requires Terminated(buf) && SeesField(buf, cur, |f|)
    requires last == cur + 1 + |f| && buf[cur + 1..last] == f && k <= 3
    ensures ScanExtensions(buf, cur, k, e)
         == if Admits(k, |f|) then ScanExtensions(buf, last, k + 1, Store(e, k, f)) else ExtRejected
  {
  }

  lemma FieldIsRead(buf: bytes, cur: nat, f: bytes, more: seq<bytes>, z: bytes)
    requires Terminated(buf) && cur < |buf| - 1 && IsExtend(buf[cur]) && Clean(f) && Closes(z, 2)
    requires buf[cur + 1..] == f + (ExtBytes(more) + z)
    ensures SeesField(buf, cur, |f|)
  {
    FieldStop(buf, cur + 1, f, more, z);
  }

  lemma FieldLayout(buf: bytes, cur: nat, fields: seq<bytes>, z: bytes)
    requires cur < |buf| && |z| > 0 && fields != [] && buf[cur..] == ExtBytes(fields) + z
    ensures var last := cur + 1 + |fields[0]|;
            && last < |buf| && buf[cur] == 0x5c && buf[cur + 1..last] == fields[0]
            && buf[cur + 1..] == fields[0] + (ExtBytes(fields[1..]) + z)
            && buf[last..] == ExtBytes(fields[1..]) + z
  {
    var after := fields[0] + (ExtBytes(fields[1..]) + z);
    assert buf[cur..] == [0x5c] + after;
    assert buf[cur] == buf[cur..][0];
    Suffix(buf, cur, [0x5c], after);
    Suffix(buf, cur + 1, fields[0], ExtBytes(fields[1..]) + z);
  }

  lemma Suffix(buf: bytes, at: nat, a: bytes, b: bytes)
    requires at <= |buf| && buf[at..] == a + b
    ensures at + |a| <= |buf| && buf[at + |a|..] == b && buf[at..at + |a|] == a
  {
    assert buf[at + |a|..] == buf[at..][|a|..];
    assert buf[at..at + |a|] == buf[at..][..|a|];
  }

  // Where strpbrk stops after the first byte of a field.
  lemma FieldStop(buf: bytes, first: nat, f: bytes, more: seq<bytes>, z: bytes)
    requires Terminated(buf) && first < |buf| && Clean(f) && Closes(z, 2)
    requires buf[first..] == f + (ExtBytes(more) + z)
    ensures more != [] ==> Scan(buf, first, true) == first + |f| && buf[first + |f|] == 0x5c
    ensures more == [] ==> Scan(buf, first, true) == first + |f| + 2 && buf[first + |f| + 2] == 0x29
  {
    var s := buf[first..];
    assert forall k :: first <= k < |buf| ==> buf[k] == s[k - first];
    assert forall k :: 0 <= k < |f| ==> s[k] == f[k];
    if more != [] {
      assert s[|f|] == 0x5c;
      ScanIs(buf, first, true, first + |f|);
    } else {
      assert s == f + z;
      assert forall k :: |f| <= k < |f| + 2 ==> s[k] == z[..2][k - |f|];
      assert s[|f| + 2] == 0x29;
      ScanIs(buf, first, true, first + |f| + 2);
    }
  }

  // --------------------------------------------------------------- the checksum

  lemma {:induction false} WeightsSplit(buf: bytes, start: nat, end: nat, sixBit: bool, lo: nat, mid: nat, hi: nat)
    requires lo <= mid <= hi <= |buf|
    ensures Weights(buf, start, end, sixBit, lo, hi)
         == Weights(buf, start, end, sixBit, lo, mid) + Weights(buf, start, end, sixBit, mid, hi)
    decreases hi
  {
    if mid < hi { WeightsSplit(buf, start, end, sixBit, lo, mid, hi - 1); }
  }

  // On positions that are neither revision nor checksum bytes, the weights are the
  // bytes, less the shift in a 6-bit block.
  lemma {:induction false} WeightsPlain(buf: bytes, start: nat, end: nat, sixBit: bool, lo: nat, hi: nat)
    requires start + 3 <= lo <= hi <= |buf| && hi + 2 <= end
    ensures Weights(buf, start, end, sixBit, lo, hi)
         == SumOf(buf[lo..hi]) - (if sixBit then 0x20 * (hi - lo) else 0)
    decreases hi
  {
    if lo < hi {
      WeightsPlain(buf, start, end, sixBit, lo, hi - 1);
      assert buf[lo..hi] == buf[lo..hi - 1] + [buf[hi - 1]];
      SumConcat(buf[lo..hi - 1], [buf[hi - 1]]);
      assert SumOf([buf[hi - 1]]) == buf[hi - 1] + SumOf([buf[hi - 1]][1..]);
    }
  }

  // The parser's sum over the translated block is the sum of the transmitted bytes.
  lemma WeightsAreTransmitted(x: Ident, ck: bytes, rest: bytes, sixBit: bool)
    requires Framed(x, sixBit) && |ck| == 2
    ensures var buf, p := Raw(x, ck, false) + rest, |x.prefix|;
            var end := p + 5 + |Content(x)|;
            Congruent(SumOf([Begin(sixBit)] + x.rev + Code(Content(x), sixBit) + [End(sixBit)]),
                      Weights(buf, p, end, sixBit, p, end + 1))
  {
    var buf, p, c := Raw(x, ck, false) + rest, |x.prefix|, Content(x);
    var end := p + 5 + |c|;
    assert buf[p] == 0x28 && buf[end] == 0x29 && buf[p + 1] == x.rev[0] && buf[p + 2] == x.rev[1];
    assert buf[p + 3..end - 2] == c;
    BlockWeights(buf, p, end, sixBit);
    TransmittedSum(x.rev, c, sixBit);
    var w := Weights(buf, p, end, sixBit, p, end + 1);
    if sixBit {
      LowerSum(c);
      var q :| SumOf(Lower(c)) == SumOf(c) - 0x20 * |c| + 256 * q;
      assert 0x08 + x.rev[0] + x.rev[1] + SumOf(Lower(c)) + 0x09 == w + 256 * q;
    } else {
      assert 0x28 + x.rev[0] + x.rev[1] + SumOf(c) + 0x29 == w + 256 * 0;
    }
  }

  lemma BlockWeights(buf: bytes, p: nat, end: nat, sixBit: bool)
    requires p + 5 <= end < |buf|
    ensures Weights(buf, p, end, sixBit, p, end + 1)
         == buf[p] + buf[p + 1] + buf[p + 2] + SumOf(buf[p + 3..end - 2]) + buf[end]
            - (if sixBit then 0x20 * (end - p - 3) else 0)
  {
    WeightsSplit(buf, p, end, sixBit, p, p + 3, end + 1);
    WeightsSplit(buf, p, end, sixBit, p + 3, end - 2, end + 1);
    WeightsPlain(buf, p, end, sixBit, p + 3, end - 2);
    HeadWeights(buf, p, end, sixBit);
    TailWeights(buf, p, end, sixBit);
  }

  lemma TransmittedSum(rev: bytes, c: bytes, sixBit: bool)
    requires |rev| == 2
    ensures SumOf([Begin(sixBit)] + rev + Code(c, sixBit) + [End(sixBit)])
         == Begin(sixBit) + rev[0] + rev[1] + SumOf(Code(c, sixBit)) + End(sixBit)
  {
    SumConcat([Begin(sixBit)] + rev + Code(c, sixBit), [End(sixBit)]);
    SumConcat([Begin(sixBit)] + rev, Code(c, sixBit));
    assert [Begin(sixBit)] + rev == [Begin(sixBit), rev[0], rev[1]];
    Sum3(Begin(sixBit), rev[0], rev[1]);
    Sum1(End(sixBit));
  }

  lemma Sum1(a: int)
    ensures SumOf([a]) == a
  {
    assert [a][1..] == [];
  }

  lemma Sum3(a: int, b: int, c: int)
    ensures SumOf([a, b, c]) == a + b + c
  {
    assert [a, b, c][1..] == [b, c] && [b, c][1..] == [c];
    Sum1(c);
  }

  lemma HeadWeights(buf: bytes, p: nat, end: nat, sixBit: bool)
    requires p + 3 <= |buf| && p + 5 <= end
    ensures Weights(buf, p, end, sixBit, p, p + 3)
         == buf[p] - (if sixBit then 0x20 else 0) + buf[p + 1] + buf[p + 2]
  {
    assert Weights(buf, p, end, sixBit, p, p + 2) == Weights(buf, p, end, sixBit, p, p + 1) + buf[p + 1];
  }

  lemma TailWeights(buf: bytes, p: nat, end: nat, sixBit: bool)
    requires p + 5 <= end < |buf|
    ensures Weights(buf, p, end, sixBit, end - 2, end + 1) == buf[end] - (if sixBit then 0x20 else 0)
  {
    assert Weights(buf, p, end, sixBit, end - 2, end) == Weights(buf, p, end, sixBit, end - 2, end - 1);
  }

  // -------------------------------------------------- what the parser stops at

  // strpbrk finds the first of its delimiters or the NUL; between fields also 0x5c and 0x3c
  // are delimiters, in whichever encoding.
  lemma ScanFindsDelimiter(buf: bytes, from: nat, extend: bool, i: nat)
    requires Terminated(buf) && from <= i < |buf|
    ensures Scan(buf, from, true) == i <==> Delimits(buf[i]) && forall k :: from <= k < i ==> !Delimits(buf[k])
    ensures Scan(buf, from, false) == i
       <==> buf[i] in [0, 0x29, 0x09] && forall k :: from <= k < i ==> buf[k] !in [0, 0x29, 0x09]
  {
    ScanIs(buf, from, true, i);
    ScanIs(buf, from, false, i);
    assert forall k :: from <= k <= i ==> (Delimits(buf[k]) <==> Stops(buf[k], true));
    assert forall k :: from <= k <= i ==> (buf[k] in [0, 0x29, 0x09] <==> Stops(buf[k], false));
  }

  // The buffer with the delimiters of the 6-bit encoding replaced by those of the other.
  function Plain(b: int): int { if b == 0x3c then 0x5c else if b == 0x09 then 0x29 else b }

  function AllPlain(buf: bytes): (r: bytes)
    ensures |r| == |buf|
  {
    seq(|buf|, k requires 0 <= k < |buf| => Plain(buf[k]))
  }

  lemma PlainScan(buf: bytes, from: nat)
    requires Terminated(buf) && from < |buf|
    ensures Terminated(AllPlain(buf)) && Scan(AllPlain(buf), from, true) == Scan(buf, from, true)
  {
    var i := Scan(buf, from, true);
    ScanIs(buf, from, true, i);
    ScanIs(AllPlain(buf), from, true, i);
  }

  // The loop takes the same fields from both.
  lemma {:induction false} EitherDelimiterServes(buf: bytes, cur: nat, k: nat, e: Extensions)
    requires Terminated(buf) && cur < |buf|
    ensures Terminated(AllPlain(buf)) && ScanExtensions(AllPlain(buf), cur, k, e) == ScanExtensions(buf, cur, k, e)
    decreases |buf| - cur
  {
    PlainTurn(buf, cur, k, e);
    match TakeTurn(buf, cur, k, e)
    case Leave(r) =>
    case GoOn(next, e') => EitherDelimiterServes(buf, next, k + 1, e');
  }

  lemma PlainTurn(buf: bytes, cur: nat, k: nat, e: Extensions)
    requires Terminated(buf) && cur < |buf|
    ensures Terminated(AllPlain(buf)) && TakeTurn(AllPlain(buf), cur, k, e) == TakeTurn(buf, cur, k, e)
  {
    if IsExtend(buf[cur]) {
      var first := cur + 1;
      PlainScan(buf, first);
      var stop: int := Scan(buf, first, true);
      ScanIs(buf, first, true, stop);
      var last := if IsEnd(buf[stop]) then stop - 2 else stop;
      if first <= last { assert AllPlain(buf)[first..last] == buf[first..last]; }
    }
  }

  // ------------------------------------------------------------- what is cut short

  // From a delimiter with no end behind it, or no byte but field bytes.
  lemma UnendedIsRejected(buf: bytes, cur: nat, k: nat, e: Extensions)
    requires Terminated(buf) && cur < |buf| - 1 && buf[cur] in [0x5c, 0x3c] && Clean(buf[cur + 1..|buf| - 1])
    ensures ScanExtensions(buf, cur, k, e) == ExtRejected
  {
    var v := buf[cur + 1..|buf| - 1];
    forall i | cur < i < |buf| - 1 ensures !Delimits(buf[i]) { assert v[i - cur - 1] == buf[i]; }
    ScanFindsDelimiter(buf, cur + 1, true, |buf| - 1);
  }

  // A field with less than two bytes before the end byte leaves no room for the checksum: as
  // a serial number it is rejected, as a later field its copy runs over the buffer's end.
  lemma NoRoomForChecksum(buf: bytes, cur: nat, k: nat, e: Extensions, end: nat)
    requires Terminated(buf) && cur < end < |buf| && end <= cur + 2 && k <= 3
    requires buf[cur] in [0x5c, 0x3c] && buf[end] in [0x29, 0x09] && Clean(buf[cur + 1..end])
    ensures ScanExtensions(buf, cur, k, e) == if k == 0 then ExtRejected else ExtOverrun
  {
    forall i | cur < i < end ensures !Delimits(buf[i]) { assert buf[cur + 1..end][i - cur - 1] == buf[i]; }
    ScanFindsDelimiter(buf, cur + 1, true, end);
  }

  // Of a fifth field nothing but its delimiter is read.
  lemma FifthFieldIsSkipped(buf: bytes, cur: nat, e: Extensions, end: nat)
    requires Terminated(buf) && cur < end < |buf| && buf[cur] in [0x5c, 0x3c] && buf[end] in [0x29, 0x09]
    requires Clean(buf[cur + 1..end])
    ensures ScanExtensions(buf, cur, 4, e) == Done(cur + 1, 5, e)
  {
    forall i | cur < i < end ensures !Delimits(buf[i]) { assert buf[cur + 1..end][i - cur - 1] == buf[i]; }
    ScanFindsDelimiter(buf, cur + 1, true, end);
    assert !IsExtend(buf[cur + 1]);
  }

  // A block of less than ten bytes before the string's end is read over that end; with just
  // ten, nothing that ends it is found.
  lemma ShortBlockOverruns(id: bytes, start: nat, sixBit: bool)
    requires FindBlock(id) == Block(start, sixBit)
    ensures start > 17 ==> Parse(id) == Rejected
    ensures start <= 17 && |id| < start + 10 ==> Parse(id) == Overrun
    ensures start <= 17 && |id| == start + 10 ==> Parse(id) == Rejected
  {
    if start <= 17 && |id| == start + 10 {
      var buf := if sixBit then Translated(id, start) else id + [0];
      assert !IsExtend(buf[start + 10]) && Scan(buf, start + 10, false) == start + 10;
    }
  }

  // ------------------------------------------------------------- main theorems

  // A checksum field that can follow these fields: two clean bytes, or nothing
  // when there is no extension.
  predicate CheckField(fields: seq<bytes>, ck: bytes) {
    IsBytes(ck) && Clean(ck) && |ck| == if fields == [] then 0 else 2
  }

  lemma BlockIsParsed(x: Ident, ck: bytes, sixBit: bool, rest: bytes)
    requires Framed(x, sixBit) && CheckField(x.fields, ck) && Terminated(rest)
    ensures ParseBlock(Raw(x, ck, false) + rest, |x.prefix|, sixBit)
         == if FieldsFit(0, x.fields) && ck == Check(x, sixBit) then Parsed(IdOf(x, ck, sixBit)) else Rejected
  {
    hide ParseBlock, Verdict, Raw, Check, Framed, Content, FieldsFit;
    var buf, p := Raw(x, ck, false) + rest, |x.prefix|;
    var cur := p + 3 + |Content(x)|;
    BlockScans(x, ck, rest, sixBit);
    if FieldsFit(0, x.fields) {
      BlockReachesVerdict(x, ck, sixBit, rest, buf, cur, cur + |ck|);
      BlockVerdict(x, ck, sixBit, rest, buf, cur, cur + |ck|);
    } else {
      ScanRejects(buf, p, sixBit);
    }
  }

  lemma ScanRejects(buf: bytes, start: nat, sixBit: bool)
    requires Terminated(buf) && start + 10 < |buf|
    requires ScanExtensions(buf, start + 10, 0, NO_EXTENSIONS) == ExtRejected
    ensures ParseBlock(buf, start, sixBit) == Rejected
  {
  }

  lemma BlockReachesVerdict(x: Ident, ck: bytes, sixBit: bool, rest: bytes, buf: bytes, cur: nat, end: nat)
    requires Framed(x, sixBit) && FieldsFit(0, x.fields) && CheckField(x.fields, ck) && Terminated(rest)
    requires buf == Raw(x, ck, false) + rest && cur == |x.prefix| + 3 + |Content(x)| && end == cur + |ck|
    ensures Terminated(buf) && end < |buf| && cur + 2 <= |buf|
    ensures ParseBlock(buf, |x.prefix|, sixBit)
         == Verdict(buf, |x.prefix|, cur, end, |x.fields|, IdOf(x, [], sixBit))
  {
    var p, exts := |x.prefix|, ExtensionsOf(x.fields);
    BlockLayout(x, ck, rest);
    BlockScans(x, ck, rest, sixBit);
    CheckStop(buf, cur, ck);
    ReachesVerdict(buf, p, sixBit, cur, |x.fields|, exts, end);
    assert BaseId(buf, p, sixBit, exts) == IdOf(x, [], sixBit);
  }

  lemma BlockVerdict(x: Ident, ck: bytes, sixBit: bool, rest: bytes, buf: bytes, cur: nat, end: nat)
    requires Framed(x, sixBit) && CheckField(x.fields, ck) && Terminated(rest)
    requires buf == Raw(x, ck, false) + rest && cur == |x.prefix| + 3 + |Content(x)| && end == cur + |ck|
    requires end < |buf| && cur + 2 <= |buf|
    ensures Verdict(buf, |x.prefix|, cur, end, |x.fields|, IdOf(x, [], sixBit))
         == if ck == Check(x, sixBit) then Parsed(IdOf(x, ck, sixBit)) else Rejected
  {
    if x.fields != [] {
      assert buf[cur..cur + 2] == ck by { BlockLayout(x, ck, rest); }
      var w := Weights(buf, |x.prefix|, end, sixBit, |x.prefix|, end + 1);
      assert Hex2(w % 256) == Check(x, sixBit) by {
        HexPairIs(w % 256);
        WeightsAreTransmitted(x, ck, rest, sixBit);
        CongruentMod(SumOf([Begin(sixBit)] + x.rev + Code(Content(x), sixBit) + [End(sixBit)]), w);
      }
    }
  }

  lemma ReachesVerdict(buf: bytes, start: nat, sixBit: bool, cur: nat, stage: nat, exts: Extensions, end: nat)
    requires Terminated(buf) && start + 10 < |buf| && start <= cur < |buf|
    requires ScanExtensions(buf, start + 10, 0, NO_EXTENSIONS) == Done(cur, stage, exts)
    requires Scan(buf, cur, false) == end && buf[end] != 0
    ensures start <= end && cur + 2 <= |buf|
    ensures ParseBlock(buf, start, sixBit) == Verdict(buf, start, cur, end, stage, BaseId(buf, start, sixBit, exts))
  {
  }

  lemma NoFields()
    ensures ExtBytes([]) == [] && FieldsFit(0, [])
  {
  }

  lemma CheckFieldCloses(fields: seq<bytes>, ck: bytes, rest: bytes, z: bytes)
    requires CheckField(fields, ck) && z == ck + [0x29] + rest
    ensures Closes(z, |ck|) && |ck| == if fields == [] then 0 else 2
  {
    assert z[..|ck|] == ck;
  }

  lemma BlockScans(x: Ident, ck: bytes, rest: bytes, sixBit: bool)
    requires Framed(x, sixBit) && CheckField(x.fields, ck) && Terminated(rest)
    ensures var buf, p := Raw(x, ck, false) + rest, |x.prefix|;
            && Terminated(buf) && p + 10 < |buf|
            && ScanExtensions(buf, p + 10, 0, NO_EXTENSIONS)
            == if FieldsFit(0, x.fields) then Done(p + 3 + |Content(x)|, |x.fields|, ExtensionsOf(x.fields))
               else ExtRejected
  {
    hide ScanExtensions, Raw, StoreAll, Closes, CheckField, CleanFields, ExtBytes, FieldsFit;
    var buf, p := Raw(x, ck, false) + rest, |x.prefix|;
    var z := ck + [0x29] + rest;
    BlockLayout(x, ck, rest);
    CheckFieldCloses(x.fields, ck, rest, z);
    assert buf[p + 10..] == ExtBytes(x.fields) + z;
    if x.fields == [] {
      assert ExtBytes([]) == [] && FieldsFit(0, x.fields) by { NoFields(); }
      LoopEnds(buf, p + 10, 0, NO_EXTENSIONS, z, 0);
    } else {
      ExtensionsAreRead(buf, p + 10, 0, NO_EXTENSIONS, x.fields, z);
    }
    StoreAllIs(x.fields);
  }

  lemma CheckStop(buf: bytes, cur: nat, ck: bytes)
    requires Terminated(buf) && Clean(ck) && cur + |ck| < |buf|
    requires buf[cur..cur + |ck|] == ck && buf[cur + |ck|] == 0x29
    ensures Scan(buf, cur, false) == cur + |ck|
  {
    forall k | cur <= k < cur + |ck| ensures buf[k] == ck[k - cur] {
      assert buf[cur..cur + |ck|][k - cur] == buf[k];
    }
    ScanIs(buf, cur, false, cur + |ck|);
  }

  // Where the parts of a translated block lie.
  lemma BlockLayout(x: Ident, ck: bytes, rest: bytes)
    requires |x.rev| == 2 && |x.eisa| == 3 && |x.product| == 4
    ensures var buf, p := Raw(x, ck, false) + rest, |x.prefix|;
            var cur := p + 3 + |Content(x)|;
            && |buf| == cur + |ck| + 1 + |rest|
            && buf[..p] == x.prefix && buf[p + 1..p + 3] == x.rev
            && buf[p + 3..p + 6] == x.eisa && buf[p + 6..p + 10] == x.product
            && buf[p + 10..] == ExtBytes(x.fields) + ck + [0x29] + rest
            && buf[cur..cur + |ck|] == ck && buf[cur + |ck|] == 0x29
  {
    hide ExtBytes;
    var exts := ExtBytes(x.fields);
    var buf := Raw(x, ck, false) + rest;
    var head := x.prefix + [0x28] + x.rev;
    assert buf == head + (x.eisa + x.product + exts + ck) + [0x29] + rest;
    Parts(buf, head, x.eisa, x.product, exts, ck, rest);
    assert head[..|x.prefix|] == x.prefix && head[|x.prefix| + 1..] == x.rev;
  }

  lemma Parts(buf: bytes, head: bytes, eisa: bytes, product: bytes, exts: bytes, ck: bytes, rest: bytes)
    requires buf == head + (eisa + product + exts + ck) + [0x29] + rest
    requires |eisa| == 3 && |product| == 4
    ensures var q := |head|;
            var cur := q + 7 + |exts|;
            && |buf| == cur + |ck| + 1 + |rest| && buf[..q] == head
            && buf[q..q + 3] == eisa && buf[q + 3..q + 7] == product
            && buf[q + 7..] == exts + ck + [0x29] + rest
            && buf[cur..cur + |ck|] == ck && buf[cur + |ck|] == 0x29
  {
    var body := eisa + product + exts + ck;
    assert body[..3] == eisa && body[3..7] == product && body[7..] == exts + ck;
    assert buf[|head|..|head| + |body|] == body;
  }

  // Exactly when a framed identifier is accepted, in either encoding and with any bytes
  // after it: when its prefix and its fields have lengths that are admitted and its
  // checksum field is right. It is then recovered whole.
  lemma FrameIsParsed(x: Ident, ck: bytes, sixBit: bool, tail: bytes)
    requires Framed(x, sixBit) && CheckField(x.fields, ck)
    ensures Parse(Raw(x, ck, sixBit) + tail)
         == if Fits(x) && ck == Check(x, sixBit) then Parsed(IdOf(x, ck, sixBit)) else Rejected
  {
    hide Raw, Check, Framed, FieldsFit, ParseBlock, CheckField;
    BlockIsFound(x, ck, sixBit, tail);
    if |x.prefix| <= 17 {
      assert Raw(x, ck, sixBit) + tail + [0] == Raw(x, ck, sixBit) + (tail + [0]);
      if sixBit {
        CheckIsPlain(x.fields, ck);
        TranslateUndoesLower(x, ck, tail + [0]);
      }
      BlockIsParsed(x, ck, sixBit, tail + [0]);
    }
  }

  lemma CheckIsPlain(fields: seq<bytes>, ck: bytes)
    requires CheckField(fields, ck)
    ensures 0x29 !in ck && IsBytes(ck)
  {
    forall k | 0 <= k < |ck| ensures ck[k] != 0x29 { assert !Delimits(ck[k]); }
  }

  lemma HexIsClean(n: nat)
    requires n < 16
    ensures 0 <= HEX[n] < 256 && !Delimits(HEX[n])
  {
    HexDigitIs(n);
  }

  lemma CheckIsClean(x: Ident, sixBit: bool)
    ensures CheckField(x.fields, Check(x, sixBit))
  {
    if x.fields != [] {
      var n := SumOf([Begin(sixBit)] + x.rev + Code(Content(x), sixBit) + [End(sixBit)]) % 256;
      HexIsClean(n / 16);
      HexIsClean(n % 16);
    }
  }

  // Round trip: the encoder's output parses to the identifier encoded.
  lemma RoundTrip(x: Ident, sixBit: bool, tail: bytes)
    requires WellFormed(x, sixBit)
    ensures Parse(Encode(x, sixBit) + tail) == Parsed(IdOf(x, Check(x, sixBit), sixBit))
  {
    CheckIsClean(x, sixBit);
    FrameIsParsed(x, Check(x, sixBit), sixBit, tail);
  }

  // Both encodings of one identifier give the same fields.
  lemma EncodingsAgree(x: Ident, tail7: bytes, tail6: bytes)
    requires WellFormed(x, true)
    ensures Parse(Encode(x, false) + tail7).Parsed? && Parse(Encode(x, true) + tail6).Parsed?
    ensures Parse(Encode(x, false) + tail7).id.(sixBit := true, checksum := [])
         == Parse(Encode(x, true) + tail6).id.(checksum := [])
  {
    RoundTrip(x, false, tail7);
    RoundTrip(x, true, tail6);
  }

  // --------------------------------------------------------- error detection

  // Offset j of the extension bytes is the delimiter in front of a field.
  predicate AtDelimiter(fields: seq<bytes>, j: nat)
    decreases |fields|
  {
    fields != [] && (j == 0 || (j > |fields[0]| && AtDelimiter(fields[1..], j - 1 - |fields[0]|)))
  }

  // Changing one extension byte that is not a delimiter changes one field byte.
  lemma {:induction false} ExtByteIsFieldByte(fields: seq<bytes>, j: nat, b: int) returns (changed: seq<bytes>)
    requires CleanFields(fields) && j < |ExtBytes(fields)| && !AtDelimiter(fields, j)
    requires !Delimits(b)
    ensures CleanFields(changed) && |changed| == |fields|
    ensures forall k :: 0 <= k < |fields| ==> |changed[k]| == |fields[k]|
    ensures ExtBytes(changed) == ExtBytes(fields)[j := b]
    decreases |fields|
  {
    var f, more := fields[0], fields[1..];
    if j <= |f| {
      changed := [f[j - 1 := b]] + more;
      assert changed[1..] == more;
    } else {
      var tail := ExtByteIsFieldByte(more, j - 1 - |f|, b);
      changed := [f] + tail;
      assert changed[1..] == tail;
    }
  }

  // What the byte b, put in place of a translated byte, means to the parser.
  function Meaning(b: int, sixBit: bool): int { if sixBit then Raised(b) else b }

  lemma LowerUpdate(v: bytes, j: nat, b: int)
    requires j < |v| && 0 <= b < 256
    ensures Lower(v)[j := b] == Lower(v[j := Raised(b)])
  {
    ShiftLower(b);
  }

  lemma CodeUpdate(v: bytes, sixBit: bool, j: nat, b: int)
    requires j < |v| && 0 <= b < 256
    ensures Code(v, sixBit)[j := b] == Code(v[j := Meaning(b, sixBit)], sixBit)
    ensures IsBytes(v) && b != Code(v, sixBit)[j] ==> Meaning(b, sixBit) != v[j]
  {
    LowerUpdate(v, j, b);
    ShiftLower(b);
    if IsBytes(v) { ShiftLower(v[j]); }
  }

  // Identifiers whose transmitted sums differ by less than 256 have different checksums.
  lemma CheckDiffers(x: Ident, y: Ident, sixBit: bool, d: int)
    requires x.fields != [] && y.fields != [] && |x.rev| == |y.rev| == 2 && d != 0 && -256 < d < 256
    requires SumOf(Code(Content(y), sixBit)) + y.rev[0] + y.rev[1]
          == SumOf(Code(Content(x), sixBit)) + x.rev[0] + x.rev[1] + d
    ensures Check(y, sixBit) != Check(x, sixBit)
  {
    TransmittedSum(x.rev, Content(x), sixBit);
    TransmittedSum(y.rev, Content(y), sixBit);
    var a := SumOf([Begin(sixBit)] + x.rev + Code(Content(x), sixBit) + [End(sixBit)]);
    var b := SumOf([Begin(sixBit)] + y.rev + Code(Content(y), sixBit) + [End(sixBit)]);
    assert b == a + d;
    if Check(y, sixBit) == Check(x, sixBit) {
      HexPairInjective(a % 256, b % 256);
      assert false;
    }
  }

  // One changed byte of the content, as transmitted.
  lemma ContentChange(x: Ident, y: Ident, ck: bytes, sixBit: bool, j: nat, b: int, i: nat)
    requires i == |x.prefix| + 3 + j
    requires j < |Content(x)| && 0 <= b < 256 && IsBytes(Content(x)) && b != Code(Content(x), sixBit)[j]
    requires x.fields != [] && y.fields != [] && y.prefix == x.prefix && y.rev == x.rev && |x.rev| == 2
    requires Content(y) == Content(x)[j := Meaning(b, sixBit)]
    ensures i < |Raw(x, ck, sixBit)| && Raw(y, ck, sixBit) == Raw(x, ck, sixBit)[i := b]
    ensures Check(y, sixBit) != Check(x, sixBit)
  {
    var c := Content(x);
    CodeUpdate(c, sixBit, j, b);
    CodeUpdate(c + ck, sixBit, j, b);
    assert Content(y) + ck == (c + ck)[j := Meaning(b, sixBit)];
    BodyUpdate(x.prefix + [Begin(sixBit)] + x.rev, Code(c + ck, sixBit), [End(sixBit)], j, b, i);
    SumUpdate(Code(c, sixBit), j, b);
    CodeBytes(c, sixBit);
    CheckDiffers(x, y, sixBit, b - Code(c, sixBit)[j]);
  }

  lemma CodeBytes(v: bytes, sixBit: bool)
    requires IsBytes(v)
    ensures IsBytes(Code(v, sixBit))
  {
  }

  lemma BodyUpdate(head: bytes, body: bytes, end: bytes, j: nat, b: int, i: nat)
    requires j < |body| && i == |head| + j
    ensures (head + body + end)[i := b] == head + body[j := b] + end
  {
  }

  // The bytes a single-byte error may put into the block: in a 6-bit block not its end byte;
  // behind the base fields, where the parser looks for delimiters, nothing that it takes
  // for one in this encoding.
  predicate Quiet(b: int, sixBit: bool, behindBase: bool) {
    0 <= b < 256 && (sixBit ==> b != 0x09) && (behindBase ==> !Delimits(Meaning(b, sixBit)))
  }

  lemma RejectsChanged(x: Ident, y: Ident, ck: bytes, sixBit: bool, tail: bytes, i: nat, b: int)
    requires WellFormed(y, sixBit) && CheckField(y.fields, ck) && ck != Check(y, sixBit)
    requires i < |Raw(x, ck, sixBit)| && Raw(y, ck, sixBit) == Raw(x, ck, sixBit)[i := b]
    ensures Parse(Raw(x, ck, sixBit)[i := b] + tail) == Rejected
  {
    FrameIsParsed(y, ck, sixBit, tail);
  }

  lemma RevError(x: Ident, sixBit: bool, tail: bytes, j: nat, b: int, i: nat)
    requires i == |x.prefix| + 1 + j
    requires WellFormed(x, sixBit) && x.fields != [] && Quiet(b, sixBit, false)
    requires j < 2 && b != x.rev[j]
    ensures i < |Encode(x, sixBit)| && Parse(Encode(x, sixBit)[i := b] + tail) == Rejected
  {
    var y := x.(rev := x.rev[j := b]);
    var ck := Check(x, sixBit);
    CheckIsClean(x, sixBit);
    var rest := Code(Content(x) + ck, sixBit) + [End(sixBit)];
    var head := x.prefix + [Begin(sixBit)];
    BodyUpdate(head, x.rev, rest, j, b, i);
    assert Raw(x, ck, sixBit) == head + x.rev + rest && Raw(y, ck, sixBit) == head + y.rev + rest;
    CheckDiffers(x, y, sixBit, b - x.rev[j]);
    RejectsChanged(x, y, ck, sixBit, tail, i, b);
  }

  lemma BaseChange(x: Ident, sixBit: bool, j: nat, v: int) returns (y: Ident)
    requires WellFormed(x, sixBit) && j < 7 && 0 <= v < 256 && (sixBit ==> v != 0x29)
    ensures WellFormed(y, sixBit) && y.prefix == x.prefix && y.rev == x.rev && y.fields == x.fields
    ensures Content(y) == Content(x)[j := v]
  {
    if j < 3 {
      y := x.(eisa := x.eisa[j := v]);
    } else {
      y := x.(product := x.product[j - 3 := v]);
    }
    assert x.eisa + x.product + ExtBytes(x.fields) == Content(x);
  }

  lemma BaseError(x: Ident, sixBit: bool, tail: bytes, j: nat, b: int, i: nat)
    requires i == |x.prefix| + 3 + j
    requires WellFormed(x, sixBit) && x.fields != [] && Quiet(b, sixBit, false)
    requires j < 7 && b != Code(Content(x), sixBit)[j]
    ensures i < |Encode(x, sixBit)| && Parse(Encode(x, sixBit)[i := b] + tail) == Rejected
  {
    hide Parse, Check, Code, Raw;
    var y := BaseChange(x, sixBit, j, Meaning(b, sixBit));
    ContentChange(x, y, Check(x, sixBit), sixBit, j, b, i);
    CheckIsClean(x, sixBit);
    RejectsChanged(x, y, Check(x, sixBit), sixBit, tail, i, b);
  }

  lemma FieldError(x: Ident, sixBit: bool, tail: bytes, j: nat, b: int, i: nat)
    requires WellFormed(x, sixBit) && x.fields != [] && Quiet(b, sixBit, true)
    requires j < |ExtBytes(x.fields)| && !AtDelimiter(x.fields, j) && b != Code(Content(x), sixBit)[7 + j]
    requires i == |x.prefix| + 10 + j
    ensures i < |Encode(x, sixBit)| && Parse(Encode(x, sixBit)[i := b] + tail) == Rejected
  {
    hide Parse, Raw, Code, Check, AtDelimiter;
    var v, ck := Meaning(b, sixBit), Check(x, sixBit);
    var fields := ExtByteIsFieldByte(x.fields, j, v);
    var y := x.(fields := fields);
    assert Content(y) == Content(x)[7 + j := v];
    ContentChange(x, y, ck, sixBit, 7 + j, b, i);
    CheckIsClean(x, sixBit);
    assert WellFormed(y, sixBit);
    RejectsChanged(x, y, ck, sixBit, tail, i, b);
  }

  lemma ChecksumError(x: Ident, sixBit: bool, tail: bytes, j: nat, b: int, i: nat)
    requires WellFormed(x, sixBit) && x.fields != [] && Quiet(b, sixBit, true) && j < 2
    requires b != Code(Content(x) + Check(x, sixBit), sixBit)[|Content(x)| + j]
    requires i == |x.prefix| + 3 + |Content(x)| + j
    ensures i < |Encode(x, sixBit)| && Parse(Encode(x, sixBit)[i := b] + tail) == Rejected
  {
    var ck, v := Check(x, sixBit), Meaning(b, sixBit);
    CheckIsClean(x, sixBit);
    var bad := ck[j := v];
    CheckChange(x, ck, bad, sixBit, j, b, i);
    FrameIsParsed(x, bad, sixBit, tail);
  }

  lemma CheckChange(x: Ident, ck: bytes, bad: bytes, sixBit: bool, j: nat, b: int, i: nat)
    requires i == |x.prefix| + 3 + |Content(x)| + j
    requires j < |ck| && IsBytes(ck) && 0 <= b < 256 && |x.rev| == 2 && bad == ck[j := Meaning(b, sixBit)]
    requires b != Code(Content(x) + ck, sixBit)[|Content(x)| + j]
    ensures i < |Raw(x, ck, sixBit)| && Raw(x, bad, sixBit) == Raw(x, ck, sixBit)[i := b]
    ensures bad != ck
  {
    var c := Content(x);
    CodeUpdate(c + ck, sixBit, |c| + j, b);
    assert c + bad == (c + ck)[|c| + j := Meaning(b, sixBit)];
    BodyUpdate(x.prefix + [Begin(sixBit)] + x.rev, Code(c + ck, sixBit), [End(sixBit)], |c| + j, b, i);
    if sixBit { ShiftLower(ck[j]); ShiftLower(b); assert Code(c + ck, sixBit)[|c| + j] == Lowered(ck[j]); }
  }

  // What each position strictly inside the block holds.
  lemma EncodeLayout(x: Ident, sixBit: bool, ck: bytes)
    requires |x.rev| == 2 && |x.eisa| == 3 && |x.product| == 4
    ensures var raw, c, p := Raw(x, ck, sixBit), Content(x), |x.prefix|;
            && |c| == 7 + |ExtBytes(x.fields)| && |raw| == p + 4 + |c| + |ck|
            && raw[p + 1] == x.rev[0] && raw[p + 2] == x.rev[1]
            && (forall k :: 0 <= k < |c| ==> raw[p + 3 + k] == Code(c, sixBit)[k])
            && (forall k :: 0 <= k < |c| + |ck| ==> raw[p + 3 + k] == Code(c + ck, sixBit)[k])
  {
    var c := Content(x);
    assert forall k :: 0 <= k < |c| ==> Code(c + ck, sixBit)[k] == Code(c, sixBit)[k];
  }

  lemma BodyError(x: Ident, sixBit: bool, tail: bytes, j: nat, b: int, i: nat)
    requires WellFormed(x, sixBit) && x.fields != [] && Quiet(b, sixBit, j >= 7)
    requires i == |x.prefix| + 3 + j && j < |Content(x)| + 2
    requires b != Code(Content(x) + Check(x, sixBit), sixBit)[j]
    requires j >= 7 ==> !AtDelimiter(x.fields, j - 7)
    ensures i < |Encode(x, sixBit)| && Parse(Encode(x, sixBit)[i := b] + tail) == Rejected
  {
    if j < 7 {
      BaseError(x, sixBit, tail, j, b, i);
    } else if j < |Content(x)| {
      FieldError(x, sixBit, tail, j - 7, b, i);
    } else {
      ChecksumError(x, sixBit, tail, j - |Content(x)|, b, i);
    }
  }

  // Error detection: in an identifier with an extension, replacing any one byte
  // strictly inside the block, other than the delimiter in front of a field, by a
  // different byte that is no delimiter there makes the parser reject.
  lemma SingleByteErrorIsDetected(x: Ident, sixBit: bool, tail: bytes, i: nat, b: int)
    requires WellFormed(x, sixBit) && x.fields != [] && Quiet(b, sixBit, i >= |x.prefix| + 10)
    requires |x.prefix| < i < |Encode(x, sixBit)| - 1 && b != Encode(x, sixBit)[i]
    requires i >= |x.prefix| + 10 ==> !AtDelimiter(x.fields, i - |x.prefix| - 10)
    ensures Parse(Encode(x, sixBit)[i := b] + tail) == Rejected
  {
    hide Encode, Raw, Code, Content, Check, Parse, Quiet, WellFormed, AtDelimiter;
    ByteAt(x, sixBit, i);
    if i < |x.prefix| + 3 {
      RevError(x, sixBit, tail, i - |x.prefix| - 1, b, i);
    } else {
      BodyError(x, sixBit, tail, i - |x.prefix| - 3, b, i);
    }
  }

  // The byte at a position strictly inside the block.
  lemma ByteAt(x: Ident, sixBit: bool, i: nat)
    requires WellFormed(x, sixBit) && x.fields != [] && |x.prefix| < i < |Encode(x, sixBit)| - 1
    ensures i < |x.prefix| + 3 ==> Encode(x, sixBit)[i] == x.rev[i - |x.prefix| - 1]
    ensures i >= |x.prefix| + 3 ==>
      && i - |x.prefix| - 3 < |Content(x)| + 2
      && Encode(x, sixBit)[i] == Code(Content(x) + Check(x, sixBit), sixBit)[i - |x.prefix| - 3]
  {
    hide Code, Content;
    CheckIsClean(x, sixBit);
    EncodeLayout(x, sixBit, Check(x, sixBit));
  }
}
