// Assigning interface names to network devices: by hardware address, by driver, and
// by numbering what is left.
module NetNames {
  import opened Common
  import opened Text
  import Numbering

  // What a probed device is; only its name changes.
  datatype Card = Card(network: bool, driver: Option<string>, hwaddr: Option<string>)

  class Device {
    var device: string
    const card: Card

    constructor (device: string, card: Card)
      ensures this.device == device && this.card == card
    {
      this.device, this.card := device, card;
    }
  }

  // One configuration file; a value that is not set is an empty array.
  datatype Conf = Conf(dev: string, hwaddr: string, driver: string)

  // -------------------------------------------------------------------- names

  function Generic(name: string): (base: string)
    ensures Bare(base)
  {
    if "eth" <= name then "eth"
    else if "tr" <= name then "tr"
    else if "fddi" <= name then "fddi"
    else "eth"
  }

  // The buffer that numbered names are made in.
  const BUFFER := 9

  function Numbered(prefix: string, k: nat): string { Numbering.Numbered(prefix, k, BUFFER) }

  // Numbers below this one are written whole.
  function Limit(prefix: string): nat
    requires Bare(prefix)
  {
    Numbering.Limit(prefix, BUFFER)
  }

  function LowerChar(c: char): char {
    if 'A' <= c <= 'Z' then c - 'A' + 'a' else c
  }

  // strcasecmp
  predicate SameIgnoringCase(a: string, b: string) {
    |a| == |b| && forall i :: 0 <= i < |a| ==> LowerChar(a[i]) == LowerChar(b[i])
  }

  // ------------------------------------------------------------ specification

  // The device names in list order, and the names recorded as given out.
  datatype State = State(names: seq<string>, recorded: seq<string>)

  // removeMatchingDevices: every other network device with the name of device i gets
  // a generic name.
  function Demote(cards: seq<Card>, names: seq<string>, i: nat): (r: seq<string>)
    requires i < |names| == |cards|
    ensures |r| == |names|
  {
    seq(|names|, k requires 0 <= k < |names| =>
      if k != i && cards[k].network && names[k] == names[i] then Generic(names[k]) else names[k])
  }

  // Device i gets a name that nobody else keeps.
  function Take(cards: seq<Card>, st: State, i: nat, name: string): (r: State)
    requires i < |st.names| == |cards|
    ensures |r.names| == |st.names|
  {
    State(Demote(cards, st.names[i := name], i), st.recorded + [name])
  }

  function ByAddressOne(cards: seq<Card>, confs: seq<Conf>, st: State, i: nat, j: nat): (r: State)
    requires i < |st.names| == |cards| && j <= |confs| && cards[i].hwaddr.Some?
    ensures |r.names| == |st.names|
    decreases |confs| - j
  {
    if j == |confs| then st
    else
      var hit := SameIgnoringCase(cards[i].hwaddr.value, confs[j].hwaddr) && st.names[i] != confs[j].dev;
      ByAddressOne(cards, confs, if hit then Take(cards, st, i, confs[j].dev) else st, i, j + 1)
  }

  // Pass 1
  function ByAddress(cards: seq<Card>, confs: seq<Conf>, st: State, i: nat): (r: State)
    requires |st.names| == |cards| && i <= |cards|
    ensures |r.names| == |st.names|
    decreases |cards| - i
  {
    if i == |cards| then st
    else
      var next := if cards[i].network && cards[i].hwaddr.Some? then ByAddressOne(cards, confs, st, i, 0) else st;
      ByAddress(cards, confs, next, i + 1)
  }

  function ByDriverOne(cards: seq<Card>, confs: seq<Conf>, st: State, i: nat, j: nat): (r: State)
    requires i < |st.names| == |cards| && j <= |confs|
    ensures |r.names| == |st.names|
    decreases |confs| - j
  {
    if j == |confs| then st
    else if cards[i].driver == Some(confs[j].driver) && confs[j].dev !in st.recorded
    then Take(cards, st, i, confs[j].dev)
    else ByDriverOne(cards, confs, st, i, j + 1)
  }

  // Pass 2
  function ByDriver(cards: seq<Card>, confs: seq<Conf>, st: State, i: nat): (r: State)
    requires |st.names| == |cards| && i <= |cards|
    ensures |r.names| == |st.names|
    decreases |cards| - i
  {
    if i == |cards| then st
    else
      ByDriver(cards, confs, if cards[i].network then ByDriverOne(cards, confs, st, i, 0) else st, i + 1)
  }

  // The first number from k on whose name is not recorded, as long as names are written whole.
  function Free(prefix: string, k: nat, recorded: seq<string>): (n: nat)
    requires Bare(prefix)
    ensures k <= n && (k <= Limit(prefix) ==> n <= Limit(prefix))
    ensures n < Limit(prefix) ==> Numbered(prefix, n) !in recorded
    ensures forall m :: k <= m < n ==> Numbered(prefix, m) in recorded
    decreases Limit(prefix) - k
  {
    if k >= Limit(prefix) || Numbered(prefix, k) !in recorded then k else Free(prefix, k + 1, recorded)
  }

  // lasteth, lasttr and lastfddi
  datatype Last = Last(eth: nat, tr: nat, fddi: nat)

  const FIRST := Last(0, 0, 0)

  function LastOf(last: Last, prefix: string): nat {
    if prefix == "eth" then last.eth else if prefix == "tr" then last.tr else last.fddi
  }

  function WithLast(last: Last, prefix: string, n: nat): Last {
    if prefix == "eth" then last.(eth := n) else if prefix == "tr" then last.(tr := n) else last.(fddi := n)
  }

  // One device of pass 4.
  function NumberStep(cards: seq<Card>, st: State, last: Last, i: nat): (r: (State, Last))
    requires i < |st.names| == |cards|
    ensures |r.0.names| == |st.names|
  {
    if cards[i].network && Bare(st.names[i]) then
      var prefix := st.names[i];
      var n := Free(prefix, LastOf(last, prefix), st.recorded);
      (Take(cards, st, i, Numbered(prefix, n)), WithLast(last, prefix, n + 1))
    else (st, last)
  }

  // Pass 4
  function ByNumber(cards: seq<Card>, st: State, last: Last, i: nat): (r: State)
    requires |st.names| == |cards| && i <= |cards|
    ensures |r.names| == |st.names|
    decreases |cards| - i
  {
    if i == |cards| then st
    else
      var next := NumberStep(cards, st, last, i);
      ByNumber(cards, next.0, next.1, i + 1)
  }

  // After passes 1 and 2
  function Configured(cards: seq<Card>, confs: seq<Conf>, names: seq<string>): (r: State)
    requires |names| == |cards|
    ensures |r.names| == |names|
  {
    ByDriver(cards, confs, ByAddress(cards, confs, State(names, []), 0), 0)
  }

  function MatchNet(cards: seq<Card>, confs: seq<Conf>, names: seq<string>): (r: State)
    requires |names| == |cards|
  {
    ByNumber(cards, Configured(cards, confs, names), FIRST, 0)
  }

  // ------------------------------------------------- when the numbering loops end

  // Some number gives a name that is not recorded.
  ghost predicate Fresh(prefix: string, recorded: seq<string>) {
    exists k: nat :: Numbered(prefix, k) !in recorded
  }

  // Every numbering loop of pass 4 from device i on ends.
  ghost predicate Numberable(cards: seq<Card>, st: State, last: Last, i: nat)
    requires |st.names| == |cards| && i <= |cards|
    decreases |cards| - i
  {
    i == |cards|
    || ((cards[i].network && Bare(st.names[i]) ==> Fresh(st.names[i], st.recorded))
        && var next := NumberStep(cards, st, last, i); Numberable(cards, next.0, next.1, i + 1))
  }

  // All names below the last numbers are recorded.
  ghost predicate Exhausted(last: Last, recorded: seq<string>) {
    forall p {:trigger LastOf(last, p)} :: Bare(p) ==>
      LastOf(last, p) <= Limit(p) && forall m :: 0 <= m < LastOf(last, p) ==> Numbered(p, m) in recorded
  }

  lemma SpaceLeft(prefix: string)
    requires Bare(prefix)
    ensures Numbering.Space(prefix, BUFFER) >= 4
  {
  }

  lemma NumberedIsWhole(prefix: string, k: nat)
    requires Bare(prefix) && k < Limit(prefix)
    ensures Numbered(prefix, k) == prefix + Decimal(k)
    ensures !Bare(Numbered(prefix, k)) && Generic(Numbered(prefix, k)) == prefix
  {
    SpaceLeft(prefix);
    Numbering.NumberedIsWhole(prefix, k, BUFFER);
    var s := prefix + Decimal(k);
    assert s[0] == prefix[0] && "eth"[0] == 'e' && "tr"[0] == 't' && "fddi"[0] == 'f';
    assert s[..|prefix|] == prefix;
  }

  lemma NumberedInjective(p: string, m: nat, q: string, n: nat)
    requires Bare(p) && Bare(q) && m < Limit(p) && n < Limit(q) && Numbered(p, m) == Numbered(q, n)
    ensures p == q && m == n
  {
    NumberedIsWhole(p, m);
    NumberedIsWhole(q, n);
    SpaceLeft(p);
    Numbering.NumberedInjective(p, m, n, BUFFER);
  }

  // A numbering loop ends exactly when a number that is written whole is free, and then
  // at the first such number: behind the buffer's end the same names come again.
  lemma NumberingEndsIff(prefix: string, last: nat, recorded: seq<string>)
    requires Bare(prefix) && last <= Limit(prefix)
    requires forall m :: 0 <= m < last ==> Numbered(prefix, m) in recorded
    ensures Fresh(prefix, recorded) <==> exists k: nat :: k < Limit(prefix) && Numbered(prefix, k) !in recorded
    ensures Fresh(prefix, recorded) <==> Free(prefix, last, recorded) < Limit(prefix)
    ensures Fresh(prefix, recorded) <==> exists k: nat :: k >= last && Numbered(prefix, k) !in recorded
  {
    SpaceLeft(prefix);
    var n := Free(prefix, last, recorded);
    if Fresh(prefix, recorded) {
      var k: nat :| Numbered(prefix, k) !in recorded;
      var m := Numbering.WrittenLike(prefix, k, BUFFER);
      assert Numbered(prefix, m) !in recorded;
      assert m >= last;
    }
    if n < Limit(prefix) { assert Numbered(prefix, n) !in recorded; }
  }

  lemma FreeIsFree(prefix: string, last: Last, recorded: seq<string>)
    requires Bare(prefix) && Exhausted(last, recorded) && Fresh(prefix, recorded)
    ensures var n := Free(prefix, LastOf(last, prefix), recorded);
            n < Limit(prefix) && Numbered(prefix, n) !in recorded && !Bare(Numbered(prefix, n))
  {
    NumberingEndsIff(prefix, LastOf(last, prefix), recorded);
    NumberedIsWhole(prefix, Free(prefix, LastOf(last, prefix), recorded));
  }

  // -------------------------------------------------------------- the program

  ghost function Cards(devs: seq<Device>): seq<Card> {
    seq(|devs|, i requires 0 <= i < |devs| => devs[i].card)
  }

  ghost function Names(devs: seq<Device>): (r: seq<string>)
    reads devs
    ensures |r| == |devs| && forall i :: 0 <= i < |devs| ==> r[i] == devs[i].device
  {
    seq(|devs|, i requires 0 <= i < |devs| reads devs => devs[i].device)
  }

  method InList(list: seq<string>, entry: string) returns (found: bool)
    ensures found <==> entry in list
  {
    for x := 0 to |list|
      invariant entry !in list[..x]
    {
      if list[x] == entry { return true; }
    }
    return false;
  }

  method RemoveMatchingDevices(devs: seq<Device>, i: nat)
    requires Distinct(devs) && i < |devs|
    modifies devs
    ensures Names(devs) == Demote(Cards(devs), old(Names(devs)), i)
  {
    ghost var names := Names(devs);
    ghost var goal := Demote(Cards(devs), names, i);
    var current := devs[i];
    for k := 0 to |devs|
      invariant forall m :: 0 <= m < |devs| ==> devs[m].device == if m < k then goal[m] else names[m]
    {
      var dev := devs[k];
      if !dev.card.network { continue; }
      if dev == current { continue; }
      if dev.device != current.device { continue; }
      if "eth" <= dev.device {
        dev.device := "eth";
      } else if "tr" <= dev.device {
        dev.device := "tr";
      } else if "fddi" <= dev.device {
        dev.device := "fddi";
      } else {
        dev.device := "eth";
      }
    }
  }

  method SetName(devs: seq<Device>, i: nat, name: string)
    requires Distinct(devs) && i < |devs|
    modifies devs
    ensures Names(devs) == old(Names(devs))[i := name]
  {
    devs[i].device := name;
  }

  // The three statements that give device i a name and record it.
  method Rename(devs: seq<Device>, i: nat, name: string, list: seq<string>) returns (newList: seq<string>)
    requires Distinct(devs) && i < |devs|
    modifies devs
    ensures State(Names(devs), newList) == Take(Cards(devs), State(old(Names(devs)), list), i, name)
  {
    SetName(devs, i, name);
    newList := list + [name];
    RemoveMatchingDevices(devs, i);
  }

  // Pass 1: names configured by hardware address.
  method PassOne(devs: seq<Device>, confs: seq<Conf>, list0: seq<string>) returns (list: seq<string>)
    requires Distinct(devs)
    modifies devs
    ensures State(Names(devs), list) == ByAddress(Cards(devs), confs, State(old(Names(devs)), list0), 0)
  {
    list := list0;
    ghost var cards := Cards(devs);
    for i := 0 to |devs|
      invariant ByAddress(cards, confs, State(Names(devs), list), i)
             == ByAddress(cards, confs, State(old(Names(devs)), list0), 0)
    {
      if !devs[i].card.network { continue; }
      if devs[i].card.hwaddr.None? { continue; }
      list := FixOne(devs, confs, list, i);
    }
  }

  // The inner loop of pass 1.
  method FixOne(devs: seq<Device>, confs: seq<Conf>, list0: seq<string>, i: nat) returns (list: seq<string>)
    requires Distinct(devs) && i < |devs| && devs[i].card.hwaddr.Some?
    modifies devs
    ensures State(Names(devs), list) == ByAddressOne(Cards(devs), confs, State(old(Names(devs)), list0), i, 0)
  {
    list := list0;
    ghost var st := State(Names(devs), list);
    for j := 0 to |confs|
      invariant ByAddressOne(Cards(devs), confs, State(Names(devs), list), i, j)
             == ByAddressOne(Cards(devs), confs, st, i, 0)
    {
      if SameIgnoringCase(devs[i].card.hwaddr.value, confs[j].hwaddr) && devs[i].device != confs[j].dev {
        list := Rename(devs, i, confs[j].dev, list);
      }
    }
  }

  // Pass 2: guess by driver.
  method PassTwo(devs: seq<Device>, confs: seq<Conf>, list0: seq<string>) returns (list: seq<string>)
    requires Distinct(devs)
    modifies devs
    ensures State(Names(devs), list) == ByDriver(Cards(devs), confs, State(old(Names(devs)), list0), 0)
  {
    list := list0;
    ghost var cards := Cards(devs);
    for i := 0 to |devs|
      invariant ByDriver(cards, confs, State(Names(devs), list), i)
             == ByDriver(cards, confs, State(old(Names(devs)), list0), 0)
    {
      if !devs[i].card.network { continue; }
      list := GuessOne(devs, confs, list, i);
    }
  }

  // The inner loop of pass 2.
  method GuessOne(devs: seq<Device>, confs: seq<Conf>, list0: seq<string>, i: nat) returns (list: seq<string>)
    requires Distinct(devs) && i < |devs|
    modifies devs
    ensures State(Names(devs), list) == ByDriverOne(Cards(devs), confs, State(old(Names(devs)), list0), i, 0)
  {
    list := list0;
    ghost var st := State(Names(devs), list0);
    for j := 0 to |confs|
      invariant Names(devs) == st.names
      invariant ByDriverOne(Cards(devs), confs, st, i, j) == ByDriverOne(Cards(devs), confs, st, i, 0)
    {
      if devs[i].card.driver.Some? && confs[j].driver == devs[i].card.driver.value {
        var taken := InList(list, confs[j].dev);
        if !taken {
          list := Rename(devs, i, confs[j].dev, list);
          return;
        }
      }
    }
  }

  lemma TakenIsBeforeFree(prefix: string, last: nat, list: seq<string>, n: nat)
    requires Bare(prefix) && Free(prefix, last, list) < Limit(prefix)
    requires last <= n <= Free(prefix, last, list) && Numbered(prefix, n) in list
    ensures n < Free(prefix, last, list)
  {
  }

  // The inner loop of pass 4: device i gets the first free number of its kind.
  method FindFree(devs: seq<Device>, i: nat, prefix: string, last: nat, list: seq<string>) returns (n: nat)
    requires Distinct(devs) && i < |devs| && Bare(prefix) && Fresh(prefix, list)
    requires last <= Limit(prefix) && forall m :: 0 <= m < last ==> Numbered(prefix, m) in list
    modifies devs
    ensures n == Free(prefix, last, list)
    ensures Names(devs) == old(Names(devs))[i := Numbered(prefix, n)]
  {
    hide Free, Limit, Numbered, Fresh;
    ghost var names, end := Names(devs), Free(prefix, last, list);
    NumberingEndsIff(prefix, last, list);
    n := last;
    SetName(devs, i, Numbered(prefix, n));
    while true
      invariant last <= n <= end && Names(devs) == names[i := Numbered(prefix, n)]
      decreases end - n
    {
      var taken := InList(list, devs[i].device);
      assert Names(devs)[i] == Numbered(prefix, n);
      if !taken { break; }
      TakenIsBeforeFree(prefix, last, list, n);
      n := n + 1;
      SetName(devs, i, Numbered(prefix, n));
    }
  }

  // One branch of pass 4.
  method NumberOne(devs: seq<Device>, i: nat, prefix: string, last: nat, list: seq<string>)
    returns (newList: seq<string>, n: nat)
    requires Distinct(devs) && i < |devs| && Bare(prefix) && Fresh(prefix, list)
    requires last <= Limit(prefix) && forall m :: 0 <= m < last ==> Numbered(prefix, m) in list
    modifies devs
    ensures n == Free(prefix, last, list)
    ensures State(Names(devs), newList) == Take(Cards(devs), State(old(Names(devs)), list), i, Numbered(prefix, n))
  {
    n := FindFree(devs, i, prefix, last, list);
    newList := list + [devs[i].device];
    RemoveMatchingDevices(devs, i);
  }

  // The three branches of pass 4, which differ only in the prefix and its counter.
  method NumberDevice(devs: seq<Device>, i: nat, last: Last, list: seq<string>)
    returns (newList: seq<string>, next: Last)
    requires Distinct(devs) && i < |devs| && devs[i].card.network && Exhausted(last, list)
    requires Bare(devs[i].device) ==> Fresh(devs[i].device, list)
    modifies devs
    ensures (State(Names(devs), newList), next) == NumberStep(Cards(devs), State(old(Names(devs)), list), last, i)
  {
    var prefix := devs[i].device;
    ghost var cards, st := Cards(devs), State(Names(devs), list);
    assert cards[i] == devs[i].card && st.names[i] == prefix;
    if prefix == "eth" || prefix == "tr" || prefix == "fddi" {
      var n;
      newList, n := NumberOne(devs, i, prefix, LastOf(last, prefix), list);
      next := WithLast(last, prefix, n + 1);
      StepTaken(cards, st, last, i, prefix, n, next);
    } else {
      newList, next := list, last;
    }
  }

  lemma StepTaken(cards: seq<Card>, st: State, last: Last, i: nat, prefix: string, n: nat, next: Last)
    requires i < |st.names| == |cards| && cards[i].network && Bare(prefix) && st.names[i] == prefix
    requires n == Free(prefix, LastOf(last, prefix), st.recorded) && next == WithLast(last, prefix, n + 1)
    ensures NumberStep(cards, st, last, i) == (Take(cards, st, i, Numbered(prefix, n)), next)
  {
  }

  lemma ExhaustedStep(prefix: string, last: Last, recorded: seq<string>, n: nat)
    requires Bare(prefix) && Exhausted(last, recorded) && Fresh(prefix, recorded)
    requires n == Free(prefix, LastOf(last, prefix), recorded)
    ensures Exhausted(WithLast(last, prefix, n + 1), recorded + [Numbered(prefix, n)])
  {
    var next, longer := WithLast(last, prefix, n + 1), recorded + [Numbered(prefix, n)];
    FreeIsFree(prefix, last, recorded);
    forall p | Bare(p)
      ensures LastOf(next, p) <= Limit(p) && forall m :: 0 <= m < LastOf(next, p) ==> Numbered(p, m) in longer
    {
      assert LastOf(last, p) <= Limit(p);
      if p == prefix { assert longer[|recorded|] == Numbered(p, n); }
    }
  }

  lemma StepKeepsExhausted(cards: seq<Card>, st: State, last: Last, i: nat)
    requires i < |st.names| == |cards| && Exhausted(last, st.recorded)
    requires cards[i].network && Bare(st.names[i]) ==> Fresh(st.names[i], st.recorded)
    ensures var next := NumberStep(cards, st, last, i); Exhausted(next.1, next.0.recorded)
  {
    if cards[i].network && Bare(st.names[i]) {
      var prefix := st.names[i];
      ExhaustedStep(prefix, last, st.recorded, Free(prefix, LastOf(last, prefix), st.recorded));
    }
  }

  // Pass 4: numbers for all devices with a generic name.
  method PassFour(devs: seq<Device>, list0: seq<string>) returns (list: seq<string>)
    requires Distinct(devs) && Numberable(Cards(devs), State(Names(devs), list0), FIRST, 0)
    modifies devs
    ensures State(Names(devs), list) == ByNumber(Cards(devs), State(old(Names(devs)), list0), FIRST, 0)
  {
    list := list0;
    var last := FIRST;
    ghost var cards := Cards(devs);
    for i := 0 to |devs|
      invariant Exhausted(last, list) && Numberable(cards, State(Names(devs), list), last, i)
      invariant ByNumber(cards, State(Names(devs), list), last, i)
             == ByNumber(cards, State(old(Names(devs)), list0), FIRST, 0)
    {
      StepKeepsExhausted(cards, State(Names(devs), list), last, i);
      if !devs[i].card.network { continue; }
      list, last := NumberDevice(devs, i, last, list);
    }
  }

  // matchNetDevices, from the configuration read on, where its numbering loops end.
  method MatchNetDevices(devs: seq<Device>, confs: seq<Conf>) returns (list: seq<string>)
    requires Distinct(devs)
    requires Numberable(Cards(devs), Configured(Cards(devs), confs, Names(devs)), FIRST, 0)
    modifies devs
    ensures State(Names(devs), list) == MatchNet(Cards(devs), confs, old(Names(devs)))
  {
    list := PassOne(devs, confs, []);
    list := PassTwo(devs, confs, list);
    list := PassFour(devs, list);
  }
}
