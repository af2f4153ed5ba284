// Which network devices keep a name through all the passes: whether anybody else is given
// it by address, by driver or by number, and whether they are given another.
module NetKeepTheory {
  import opened Common
  import opened NetNames
  import opened NetNamesTheory
  import opened NetNumberTheory

  // ------------------------------------------------------------ pass 2, in turns

  // The name that pass 2 guesses for a device: that of the first configuration of its
  // driver whose name is not recorded.
  function GuessOf(card: Card, confs: seq<Conf>, recorded: seq<string>, j: nat): Option<string>
    requires j <= |confs|
    decreases |confs| - j
  {
    if j == |confs| then None
    else if card.driver == Some(confs[j].driver) && confs[j].dev !in recorded then Some(confs[j].dev)
    else GuessOf(card, confs, recorded, j + 1)
  }

  lemma {:induction false} GuessIs(cards: seq<Card>, confs: seq<Conf>, st: State, i: nat, j: nat)
    requires i < |st.names| == |cards| && j <= |confs|
    ensures var g := GuessOf(cards[i], confs, st.recorded, j);
            && ByDriverOne(cards, confs, st, i, j) == (if g.Some? then Take(cards, st, i, g.value) else st)
            && (g.Some? ==> g.value !in st.recorded)
    decreases |confs| - j
  {
    if j < |confs| { GuessIs(cards, confs, st, i, j + 1); }
  }

  // The state before device i's turn in pass 2.
  function Guessing(cards: seq<Card>, confs: seq<Conf>, st: State, i: nat): (r: State)
    requires i <= |st.names| == |cards|
    ensures |r.names| == |cards|
  {
    if i == 0 then st
    else
      var before := Guessing(cards, confs, st, i - 1);
      if cards[i - 1].network then ByDriverOne(cards, confs, before, i - 1, 0) else before
  }

  lemma {:induction false} GuessingIsPassTwo(cards: seq<Card>, confs: seq<Conf>, st: State, i: nat)
    requires i <= |st.names| == |cards|
    ensures ByDriver(cards, confs, Guessing(cards, confs, st, i), i) == ByDriver(cards, confs, st, 0)
  {
    if i > 0 { GuessingIsPassTwo(cards, confs, st, i - 1); }
  }

  // A device with a recorded name, before device k's turn: it has that name, or after its
  // turn the one that was guessed; both are recorded.
  lemma {:induction false} GuessingTracks(cards: seq<Card>, confs: seq<Conf>, st: State, i: nat, k: nat)
    requires i < |st.names| == |cards| && k <= |cards| && cards[i].network && st.names[i] in st.recorded
    ensures var r := Guessing(cards, confs, st, k);
            var g := GuessOf(cards[i], confs, Guessing(cards, confs, st, i).recorded, 0);
            && r.names[i] in r.recorded && st.names[i] in r.recorded
            && r.names[i] == (if i < k && g.Some? then g.value else st.names[i])
            && (g.Some? && i < k ==> g.value != st.names[i])
    decreases k
  {
    if k > 0 {
      GuessingTracks(cards, confs, st, i, k - 1);
      var before := Guessing(cards, confs, st, k - 1);
      var g := GuessOf(cards[k - 1], confs, before.recorded, 0);
      GuessIs(cards, confs, before, k - 1, 0);
      if cards[k - 1].network && g.Some? {
        var r := Take(cards, before, k - 1, g.value);
        assert r.recorded[|before.recorded|] == g.value;
        if k - 1 != i { TakeSparesHolders(cards, before, k - 1, g.value, i); }
      }
    }
  }

  // ------------------------------------------------------------ pass 1, in turns

  predicate Matches(hwaddr: string, conf: Conf) { SameIgnoringCase(hwaddr, conf.hwaddr) }

  // The name configured for a hardware address: that of the last configuration with it.
  function ConfiguredFor(hwaddr: string, confs: seq<Conf>, j: nat): Option<string>
    requires j <= |confs|
    decreases |confs| - j
  {
    if j == |confs| then None
    else
      var later := ConfiguredFor(hwaddr, confs, j + 1);
      if later.Some? then later else if Matches(hwaddr, confs[j]) then Some(confs[j].dev) else None
  }

  // The inner loop of pass 1: what it does for its own device, and to another one.
  lemma {:induction false} AddressOneIs(cards: seq<Card>, confs: seq<Conf>, st: State, i: nat, j: nat)
    requires i < |st.names| == |cards| && j <= |confs| && cards[i].hwaddr.Some?
    ensures var r, c := ByAddressOne(cards, confs, st, i, j), ConfiguredFor(cards[i].hwaddr.value, confs, j);
            && r.names[i] == (if c.Some? then c.value else st.names[i])
            && (r.names[i] != st.names[i] || st.names[i] in st.recorded ==> r.names[i] in r.recorded)
    decreases |confs| - j
  {
    if j < |confs| {
      var hit := Matches(cards[i].hwaddr.value, confs[j]) && st.names[i] != confs[j].dev;
      var next := if hit then Take(cards, st, i, confs[j].dev) else st;
      if hit { assert next.recorded[|st.recorded|] == next.names[i]; }
      AddressOneIs(cards, confs, next, i, j + 1);
    }
  }

  lemma {:induction false} UnconfiguredIsLeft(
    cards: seq<Card>, confs: seq<Conf>, st: State, i: nat, j: nat, d: string)
    requires i < |st.names| == |cards| && j <= |confs| && cards[i].hwaddr.Some?
    requires ConfiguredFor(cards[i].hwaddr.value, confs, j) == None
    ensures ByAddressOne(cards, confs, st, i, j) == st
    ensures !TakesFrom(st.names[i], cards[i].hwaddr.value, confs, j, d)
    decreases |confs| - j
  {
    if j < |confs| { UnconfiguredIsLeft(cards, confs, st, i, j + 1, d); }
  }

  // Whether a device with this name and address is given the name d, by a configuration
  // from j on, instead of another.
  predicate TakesFrom(name: string, hwaddr: string, confs: seq<Conf>, j: nat, d: string)
    requires j <= |confs|
    decreases |confs| - j
  {
    j < |confs| &&
    if Matches(hwaddr, confs[j]) && name != confs[j].dev
    then confs[j].dev == d || TakesFrom(confs[j].dev, hwaddr, confs, j + 1, d)
    else TakesFrom(name, hwaddr, confs, j + 1, d)
  }

  // What device k's turn in pass 1 does to device i.
  lemma {:induction false} AddressOneOther(
    cards: seq<Card>, confs: seq<Conf>, st: State, k: nat, j: nat, i: nat, d: string)
    requires k < |st.names| == |cards| && j <= |confs| && cards[k].hwaddr.Some?
    requires i < |cards| && i != k && cards[i].network && !Bare(d)
    ensures var r := ByAddressOne(cards, confs, st, k, j);
            var takes := TakesFrom(st.names[k], cards[k].hwaddr.value, confs, j, d);
            && (r.names[i] == d <==> st.names[i] == d && !takes)
            && (r.names[i] == st.names[i] || Bare(r.names[i]))
            && (d in r.recorded <==> d in st.recorded || takes)
    decreases |confs| - j
  {
    if j < |confs| {
      var hit := Matches(cards[k].hwaddr.value, confs[j]) && st.names[k] != confs[j].dev;
      var next := if hit then Take(cards, st, k, confs[j].dev) else st;
      if hit { assert next.recorded[|st.recorded|] == confs[j].dev; }
      AddressOneOther(cards, confs, next, k, j + 1, i, d);
    }
  }

  // The state before device k's turn in pass 1.
  function Addressing(cards: seq<Card>, confs: seq<Conf>, st: State, k: nat): (r: State)
    requires k <= |st.names| == |cards|
    ensures |r.names| == |cards|
  {
    if k == 0 then st
    else
      var before := Addressing(cards, confs, st, k - 1);
      if cards[k - 1].network && cards[k - 1].hwaddr.Some? then ByAddressOne(cards, confs, before, k - 1, 0)
      else before
  }

  lemma {:induction false} AddressingIsPassOne(cards: seq<Card>, confs: seq<Conf>, st: State, k: nat)
    requires k <= |st.names| == |cards|
    ensures ByAddress(cards, confs, Addressing(cards, confs, st, k), k) == ByAddress(cards, confs, st, 0)
  {
    if k > 0 { AddressingIsPassOne(cards, confs, st, k - 1); }
  }

  lemma EmptyIsUnique(cards: seq<Card>, st: State)
    requires |st.names| == |cards| && st.recorded == []
    ensures Unique(cards, st)
  {
  }

  // ---------------------------------------------------------- a device's own name

  // Whether a device is configured by its address.
  predicate IsConfigured(card: Card, confs: seq<Conf>) {
    card.hwaddr.Some? && ConfiguredFor(card.hwaddr.value, confs, 0).Some?
  }

  // The name that is configured for a device's address, else the one it was found with.
  function OwnName(card: Card, confs: seq<Conf>, found: string): string {
    if IsConfigured(card, confs) then ConfiguredFor(card.hwaddr.value, confs, 0).value else found
  }

  // The first device whose turn in pass 1 can take device i's own name from it.
  function Since(card: Card, confs: seq<Conf>, i: nat): nat {
    if IsConfigured(card, confs) then i + 1 else 0
  }

  // In its turn of pass 1 device k is given the name d.
  predicate TakesByAddress(cards: seq<Card>, confs: seq<Conf>, names: seq<string>, k: nat, d: string)
    requires k < |cards| == |names|
  {
    cards[k].network && cards[k].hwaddr.Some?
    && TakesFrom(Addressing(cards, confs, State(names, []), k).names[k], cards[k].hwaddr.value, confs, 0, d)
  }

  predicate NobodyTakes(cards: seq<Card>, confs: seq<Conf>, names: seq<string>, from: nat, end: nat, d: string)
    requires end <= |cards| == |names|
  {
    forall k :: from <= k < end ==> !TakesByAddress(cards, confs, names, k, d)
  }

  // In its turn of pass 2, which starts with st, device k is given the name d.
  predicate TakesByDriver(cards: seq<Card>, confs: seq<Conf>, st: State, k: nat, d: string)
    requires k < |st.names| == |cards|
  {
    cards[k].network && GuessFor(cards, confs, st, k) == Some(d)
  }

  function GuessFor(cards: seq<Card>, confs: seq<Conf>, st: State, k: nat): Option<string>
    requires k < |st.names| == |cards|
  {
    GuessOf(cards[k], confs, Guessing(cards, confs, st, k).recorded, 0)
  }

  predicate NobodyGuesses(cards: seq<Card>, confs: seq<Conf>, st: State, end: nat, d: string)
    requires end <= |st.names| == |cards|
  {
    forall k :: 0 <= k < end ==> !TakesByDriver(cards, confs, st, k, d)
  }

  // A device's own name in pass 1: it has it until somebody takes it, which records it.
  lemma {:induction false} AddressingOwn(
    cards: seq<Card>, confs: seq<Conf>, names: seq<string>, i: nat, d: string, k: nat)
    requires i < |cards| == |names| && cards[i].network && d == OwnName(cards[i], confs, names[i]) && !Bare(d)
    requires Since(cards[i], confs, i) <= k <= |cards|
    ensures var r := Addressing(cards, confs, State(names, []), k);
            && (r.names[i] == d <==> NobodyTakes(cards, confs, names, Since(cards[i], confs, i), k, d))
            && (r.names[i] != d ==> d in r.recorded)
    decreases k
  {
    hide ByAddressOne, ConfiguredFor, TakesFrom;
    if k > 0 {
      var before := Addressing(cards, confs, State(names, []), k - 1);
      var from, m := Since(cards[i], confs, i), k - 1;
      assert from < k ==>
        (NobodyTakes(cards, confs, names, from, k, d)
         <==> NobodyTakes(cards, confs, names, from, m, d) && !TakesByAddress(cards, confs, names, m, d));
      if k == Since(cards[i], confs, i) {
        AddressOneIs(cards, confs, before, i, 0);
      } else {
        AddressingOwn(cards, confs, names, i, d, k - 1);
        if cards[k - 1].network && cards[k - 1].hwaddr.Some? {
          if k - 1 == i { UnconfiguredIsLeft(cards, confs, before, i, 0, d); }
          else { AddressOneOther(cards, confs, before, k - 1, 0, i, d); }
        }
      }
    }
  }

  // And in pass 2: its own guess replaces it; before, it has it until somebody takes it.
  lemma {:induction false} GuessingOwn(cards: seq<Card>, confs: seq<Conf>, st: State, i: nat, d: string, k: nat)
    requires i < |st.names| == |cards| && k <= |cards| && cards[i].network && !Bare(d)
    requires st.names[i] != d ==> d in st.recorded
    ensures var r, g := Guessing(cards, confs, st, k), GuessFor(cards, confs, st, i);
            && (d in st.recorded ==> d in r.recorded)
            && (if i < k && g.Some? then r.names[i] == g.value && g.value in r.recorded
                else (r.names[i] == d <==> st.names[i] == d && NobodyGuesses(cards, confs, st, k, d))
                     && (r.names[i] != d ==> d in r.recorded))
    decreases k
  {
    hide GuessOf, ByDriverOne;
    if k > 0 {
      var m := k - 1;
      assert NobodyGuesses(cards, confs, st, k, d)
        <==> NobodyGuesses(cards, confs, st, m, d) && !TakesByDriver(cards, confs, st, m, d);
      GuessingOwn(cards, confs, st, i, d, m);
      var before := Guessing(cards, confs, st, k - 1);
      var g := GuessFor(cards, confs, st, k - 1);
      GuessIs(cards, confs, before, k - 1, 0);
      if cards[k - 1].network && g.Some? {
        assert Take(cards, before, k - 1, g.value).recorded[|before.recorded|] == g.value;
      }
    }
  }

  // A device with a recorded name: whether pass 2 and pass 4 leave it.
  lemma RecordedIsKeptIff(cards: seq<Card>, confs: seq<Conf>, st: State, i: nat)
    requires Unique(cards, st) && i < |cards| && cards[i].network && st.names[i] in st.recorded && !Bare(st.names[i])
    requires Numberable(cards, ByDriver(cards, confs, st, 0), FIRST, 0)
    ensures ByNumber(cards, ByDriver(cards, confs, st, 0), FIRST, 0).names[i] == st.names[i]
       <==> GuessFor(cards, confs, st, i) == None
  {
    hide Unique, Numberable, Counters, HandedOut;
    UniqueLength(cards, st);
    var s, d := ByDriver(cards, confs, st, 0), st.names[i];
    var r, last := ByNumber(cards, s, FIRST, 0), Counters(cards, s, |cards|);
    GuessingIsPassTwo(cards, confs, st, |cards|);
    GuessingTracks(cards, confs, st, i, |cards|);
    DriverKeepsUnique(cards, confs, st, 0);
    NothingIsExhausted(s.recorded);
    NumberingSparesHolders(cards, s, FIRST, 0);
    PassFourTracks(cards, s);
    assert Tracked(cards, s, r, last, |cards|, i);
  }

  // A name that is recorded, and that a device does not have before pass 4, it does not get.
  lemma RecordedIsNotGiven(cards: seq<Card>, s: State, i: nat, d: string)
    requires Unique(cards, s) && Numberable(cards, s, FIRST, 0) && i < |cards| && cards[i].network
    requires d in s.recorded && s.names[i] != d && !Bare(d)
    ensures ByNumber(cards, s, FIRST, 0).names[i] != d && (TakesAt(cards, s, i) ==> NumberAt(cards, s, i) != d)
  {
    hide Unique, Numberable, Counters, HandedOut, TakesAt, NumberAt, ByNumber;
    PassFourNames(cards, s, i);
  }

  // A device that pass 2 has given a name x: it ends with it, or with a number if it is generic.
  lemma GuessedEnds(cards: seq<Card>, s: State, i: nat, x: string)
    requires Unique(cards, s) && Numberable(cards, s, FIRST, 0) && i < |cards| && cards[i].network
    requires s.names[i] == x && x in s.recorded
    ensures ByNumber(cards, s, FIRST, 0).names[i] == if Bare(x) then NumberAt(cards, s, i) else x
    ensures Bare(x) ==> NumberAt(cards, s, i) !in s.recorded
  {
    hide Unique, Numberable, Counters, NumberAt, ByNumber;
    PassFourNames(cards, s, i);
  }

  // Whether a device's own name d outlives passes 2 and 4, from its guess g in pass 2: it
  // must be guessed d itself, or nothing; then nobody else may be given d. (It is also given
  // d if it is guessed a generic name and its number happens to make d.)
  ghost predicate Outlives(cards: seq<Card>, confs: seq<Conf>, st: State, s: State, i: nat, d: string)
    requires i < |st.names| == |s.names| == |cards|
  {
    match GuessFor(cards, confs, st, i)
    case None =>
      NobodyGuesses(cards, confs, st, |cards|, d) && !HandedOut(Counters(cards, s, |cards|), s.recorded, d)
    case Some(x) => x == d || (Bare(x) && NumberAt(cards, s, i) == d)
  }

  // Exactly when a network device ends with its own name, unless that is generic: nobody
  // takes it by address, after its turn if it is configured itself, and it outlives passes
  // 2 and 4.
  lemma NameIsKeptIff(cards: seq<Card>, confs: seq<Conf>, names: seq<string>, i: nat, d: string)
    requires i < |cards| == |names| && cards[i].network && d == OwnName(cards[i], confs, names[i]) && !Bare(d)
    requires Numberable(cards, Configured(cards, confs, names), FIRST, 0)
    ensures MatchNet(cards, confs, names).names[i] == d
       <==> && NobodyTakes(cards, confs, names, Since(cards[i], confs, i), |cards|, d)
            && Outlives(cards, confs, ByAddress(cards, confs, State(names, []), 0),
                        Configured(cards, confs, names), i, d)
  {
    hide Unique, Numberable, HandedOut, Counters, TakesAt, NumberAt, NobodyTakes, NobodyGuesses, OwnName;
    var st0 := State(names, []);
    var st, s := ByAddress(cards, confs, st0, 0), Configured(cards, confs, names);
    AddressingOwn(cards, confs, names, i, d, |cards|);
    AddressingIsPassOne(cards, confs, st0, |cards|);
    GuessingOwn(cards, confs, st, i, d, |cards|);
    GuessingOwn(cards, confs, st, i, d, i);
    GuessingIsPassTwo(cards, confs, st, |cards|);
    ConfiguredIsUnique(cards, confs, names);
    GuessIs(cards, confs, Guessing(cards, confs, st, i), i, 0);
    var g := GuessFor(cards, confs, st, i);
    if g.Some? {
      GuessedEnds(cards, s, i, g.value);
    } else if s.names[i] == d {
      NumberingKeepsIff(cards, s, i);
    } else {
      RecordedIsNotGiven(cards, s, i, d);
    }
  }

  // ------------------------------------------------------- who takes by address

  // Some configuration from j on has this address and this name.
  predicate ConfiguredFrom(hwaddr: string, confs: seq<Conf>, j: nat, d: string) {
    exists m :: j <= m < |confs| && Matches(hwaddr, confs[m]) && confs[m].dev == d
  }

  // Device k's address is configured for the name d.
  predicate Claims(cards: seq<Card>, confs: seq<Conf>, k: nat, d: string)
    requires k < |cards|
  {
    cards[k].network && cards[k].hwaddr.Some? && ConfiguredFrom(cards[k].hwaddr.value, confs, 0, d)
  }

  lemma {:induction false} TakesFromIff(name: string, hwaddr: string, confs: seq<Conf>, j: nat, d: string)
    requires j <= |confs|
    ensures TakesFrom(name, hwaddr, confs, j, d) ==> ConfiguredFrom(hwaddr, confs, j, d)
    ensures name != d && ConfiguredFrom(hwaddr, confs, j, d) ==> TakesFrom(name, hwaddr, confs, j, d)
    decreases |confs| - j
  {
    if j < |confs| {
      var hit := Matches(hwaddr, confs[j]) && name != confs[j].dev;
      TakesFromIff(if hit then confs[j].dev else name, hwaddr, confs, j + 1, d);
      if ConfiguredFrom(hwaddr, confs, j, d) && !(hit && confs[j].dev == d) && name != d {
        assert ConfiguredFrom(hwaddr, confs, j + 1, d);
      }
    }
  }

  // Before its turn in pass 1 a device has the name it was found with, or a generic one.
  lemma {:induction false} NameBeforeTurn(cards: seq<Card>, confs: seq<Conf>, names: seq<string>, i: nat, k: nat)
    requires k <= i < |cards| == |names| && cards[i].network
    ensures var r := Addressing(cards, confs, State(names, []), k); r.names[i] == names[i] || Bare(r.names[i])
    decreases k
  {
    hide ByAddressOne, TakesFrom;
    if k > 0 {
      NameBeforeTurn(cards, confs, names, i, k - 1);
      var before := Addressing(cards, confs, State(names, []), k - 1);
      if cards[k - 1].network && cards[k - 1].hwaddr.Some? {
        AddressOneOther(cards, confs, before, k - 1, 0, i, "-");
      }
    }
  }

  lemma {:induction false} AddressingIsUnique(cards: seq<Card>, confs: seq<Conf>, st: State, k: nat)
    requires Unique(cards, st) && k <= |st.names| == |cards|
    ensures Unique(cards, Addressing(cards, confs, st, k))
  {
    hide Unique;
    if k > 0 {
      AddressingIsUnique(cards, confs, st, k - 1);
      if cards[k - 1].network && cards[k - 1].hwaddr.Some? {
        AddressOneKeepsUnique(cards, confs, Addressing(cards, confs, st, k - 1), k - 1, 0);
      }
    }
  }

  // A device that is renamed to d in its turn: from then on d is recorded.
  lemma {:induction false} RenamedIsRecorded(
    cards: seq<Card>, confs: seq<Conf>, names: seq<string>, i: nat, d: string, k: nat)
    requires i < |cards| == |names| && cards[i].network && d == OwnName(cards[i], confs, names[i]) && !Bare(d)
    requires names[i] != d && i < k <= |cards|
    ensures d in Addressing(cards, confs, State(names, []), k).recorded
    decreases k
  {
    hide ByAddressOne, ConfiguredFor, TakesFrom;
    var before := Addressing(cards, confs, State(names, []), k - 1);
    if k - 1 == i {
      NameBeforeTurn(cards, confs, names, i, i);
      AddressOneIs(cards, confs, before, i, 0);
    } else {
      RenamedIsRecorded(cards, confs, names, i, d, k - 1);
      if cards[k - 1].network && cards[k - 1].hwaddr.Some? { AddressOneOther(cards, confs, before, k - 1, 0, i, d); }
    }
  }

  // If device i still has d, device k does not when its turn comes.
  lemma NotYetNamed(cards: seq<Card>, confs: seq<Conf>, names: seq<string>, i: nat, d: string, k: nat)
    requires i < |cards| == |names| && cards[i].network && d == OwnName(cards[i], confs, names[i]) && !Bare(d)
    requires Since(cards[i], confs, i) <= k < |cards| && k != i && cards[k].network
    requires names[i] != d || names[k] != d
    requires NobodyTakes(cards, confs, names, Since(cards[i], confs, i), k, d)
    ensures Addressing(cards, confs, State(names, []), k).names[k] != d
  {
    hide NobodyTakes, ConfiguredFor, Addressing;
    if names[k] != d {
      NameBeforeTurn(cards, confs, names, k, k);
    } else {
      AddressingOwn(cards, confs, names, i, d, k);
      RenamedIsRecorded(cards, confs, names, i, d, k);
      EmptyIsUnique(cards, State(names, []));
      AddressingIsUnique(cards, confs, State(names, []), k);
    }
  }

  // Who takes d by address: the devices whose address is configured for it, if device i was
  // found with another name, or alone with d.
  lemma TakersAreClaimants(cards: seq<Card>, confs: seq<Conf>, names: seq<string>, i: nat, d: string)
    requires i < |cards| == |names| && cards[i].network && d == OwnName(cards[i], confs, names[i]) && !Bare(d)
    requires names[i] != d || forall k :: 0 <= k < |cards| && k != i && cards[k].network ==> names[k] != d
    ensures NobodyTakes(cards, confs, names, Since(cards[i], confs, i), |cards|, d)
       <==> forall k :: Since(cards[i], confs, i) <= k < |cards| ==> !Claims(cards, confs, k, d)
  {
    hide NobodyTakes, TakesFrom, ConfiguredFrom;
    ClaimantsOnly(cards, confs, names, i, d, |cards|);
  }

  lemma {:induction false} ClaimantsOnly(
    cards: seq<Card>, confs: seq<Conf>, names: seq<string>, i: nat, d: string, end: nat)
    requires i < |cards| == |names| && cards[i].network && d == OwnName(cards[i], confs, names[i]) && !Bare(d)
    requires names[i] != d || forall k :: 0 <= k < |cards| && k != i && cards[k].network ==> names[k] != d
    requires Since(cards[i], confs, i) <= end <= |cards|
    ensures NobodyTakes(cards, confs, names, Since(cards[i], confs, i), end, d)
       <==> forall k :: Since(cards[i], confs, i) <= k < end ==> !Claims(cards, confs, k, d)
    decreases end
  {
    hide TakesFrom, ConfiguredFrom, Addressing, OwnName, ConfiguredFor;
    if end > Since(cards[i], confs, i) {
      var from, k := Since(cards[i], confs, i), end - 1;
      assert NobodyTakes(cards, confs, names, from, end, d)
        <==> NobodyTakes(cards, confs, names, from, k, d) && !TakesByAddress(cards, confs, names, k, d);
      ClaimantsOnly(cards, confs, names, i, d, k);
      if cards[k].network && cards[k].hwaddr.Some? {
        var name := Addressing(cards, confs, State(names, []), k).names[k];
        TakesFromIff(name, cards[k].hwaddr.value, confs, 0, d);
        if k == i {
          UnclaimedByItself(cards[i], confs, d);
        } else if NobodyTakes(cards, confs, names, Since(cards[i], confs, i), k, d) {
          NotYetNamed(cards, confs, names, i, d, k);
        }
      }
      if NobodyTakes(cards, confs, names, from, k, d) {
        assert TakesByAddress(cards, confs, names, k, d) <==> Claims(cards, confs, k, d);
      } else {
        var c :| from <= c < k && Claims(cards, confs, c, d);
      }
    }
  }

  lemma UnclaimedByItself(card: Card, confs: seq<Conf>, d: string)
    requires card.hwaddr.Some? && !IsConfigured(card, confs)
    ensures !ConfiguredFrom(card.hwaddr.value, confs, 0, d)
  {
    NothingConfigured(card.hwaddr.value, confs, 0);
  }

  lemma {:induction false} NothingConfigured(hwaddr: string, confs: seq<Conf>, j: nat)
    requires j <= |confs| && ConfiguredFor(hwaddr, confs, j) == None
    ensures forall m :: j <= m < |confs| ==> !Matches(hwaddr, confs[m])
    decreases |confs| - j
  {
    if j < |confs| { NothingConfigured(hwaddr, confs, j + 1); }
  }

  // So a device configured for d and found with another name ends with d exactly when no
  // later device is configured for d and pass 2 guesses nothing for it.
  lemma RenamedIsKeptIff(cards: seq<Card>, confs: seq<Conf>, names: seq<string>, i: nat, d: string)
    requires i < |cards| == |names| && cards[i].network && d == OwnName(cards[i], confs, names[i]) && !Bare(d)
    requires names[i] != d
    requires Numberable(cards, Configured(cards, confs, names), FIRST, 0)
    ensures MatchNet(cards, confs, names).names[i] == d
       <==> && (forall k :: i < k < |cards| ==> !Claims(cards, confs, k, d))
            && GuessFor(cards, confs, ByAddress(cards, confs, State(names, []), 0), i) == None
  {
    hide Unique, Numberable, Claims, NobodyTakes, Outlives;
    var st0 := State(names, []);
    var st := ByAddress(cards, confs, st0, 0);
    NameIsKeptIff(cards, confs, names, i, d);
    TakersAreClaimants(cards, confs, names, i, d);
    if NobodyTakes(cards, confs, names, i + 1, |cards|, d) {
      AddressingOwn(cards, confs, names, i, d, |cards|);
      RenamedIsRecorded(cards, confs, names, i, d, |cards|);
      AddressingIsPassOne(cards, confs, st0, |cards|);
      AddressKeepsUnique(cards, confs, st0, 0) by { EmptyIsUnique(cards, st0); }
      RecordedIsKeptIff(cards, confs, st, i);
    }
  }

  // ------------------------------------------------------ the case of an address

  // One character, or the two cases of a letter.
  predicate SameLetter(a: char, b: char) {
    a == b || ('A' <= a <= 'Z' && b as int == a as int + 32) || ('A' <= b <= 'Z' && a as int == b as int + 32)
  }

  predicate SameLetters(s: string, t: string) {
    |s| == |t| && forall i :: 0 <= i < |s| ==> SameLetter(s[i], t[i])
  }

  // A configuration matches an address exactly when it has the same letters in whatever case.
  lemma MatchesIff(hwaddr: string, conf: Conf)
    ensures Matches(hwaddr, conf) <==> SameLetters(hwaddr, conf.hwaddr)
  {
    if |hwaddr| == |conf.hwaddr| {
      forall i | 0 <= i < |hwaddr|
        ensures LowerChar(hwaddr[i]) == LowerChar(conf.hwaddr[i]) <==> SameLetter(hwaddr[i], conf.hwaddr[i])
      {
        LowerAgreesIff(hwaddr[i], conf.hwaddr[i]);
      }
    }
  }

  lemma LowerAgreesIff(a: char, b: char)
    ensures LowerChar(a) == LowerChar(b) <==> SameLetter(a, b)
  {
    LowerIs(a);
    LowerIs(b);
  }

  lemma LowerIs(c: char)
    ensures LowerChar(c) as int == if 'A' <= c <= 'Z' then c as int + 32 else c as int
  {
  }

  // Two configurations that differ in the case of their address only.
  predicate Recased(c: Conf, d: Conf) {
    c.dev == d.dev && c.driver == d.driver && SameLetters(c.hwaddr, d.hwaddr)
  }

  predicate AllRecased(confs: seq<Conf>, others: seq<Conf>) {
    |confs| == |others| && forall j :: 0 <= j < |confs| ==> Recased(confs[j], others[j])
  }

  lemma RecasedMatch(hwaddr: string, c: Conf, d: Conf)
    requires Recased(c, d)
    ensures Matches(hwaddr, c) == Matches(hwaddr, d)
  {
    MatchesIff(hwaddr, c);
    MatchesIff(hwaddr, d);
    if |hwaddr| == |c.hwaddr| {
      forall i | 0 <= i < |hwaddr|
        ensures SameLetter(hwaddr[i], c.hwaddr[i]) == SameLetter(hwaddr[i], d.hwaddr[i])
      {
      }
    }
  }

  lemma {:induction false} RecasedOne(
    cards: seq<Card>, confs: seq<Conf>, others: seq<Conf>, st: State, i: nat, j: nat)
    requires AllRecased(confs, others) && i < |st.names| == |cards| && j <= |confs|
    ensures cards[i].hwaddr.Some? ==> ByAddressOne(cards, confs, st, i, j) == ByAddressOne(cards, others, st, i, j)
    ensures ByDriverOne(cards, confs, st, i, j) == ByDriverOne(cards, others, st, i, j)
    decreases |confs| - j
  {
    hide Take;
    if j < |confs| {
      if cards[i].hwaddr.Some? {
        RecasedMatch(cards[i].hwaddr.value, confs[j], others[j]);
        var hit := Matches(cards[i].hwaddr.value, confs[j]) && st.names[i] != confs[j].dev;
        RecasedOne(cards, confs, others, if hit then Take(cards, st, i, confs[j].dev) else st, i, j + 1);
      }
      RecasedOne(cards, confs, others, st, i, j + 1);
    }
  }

  lemma {:induction false} RecasedPasses(cards: seq<Card>, confs: seq<Conf>, others: seq<Conf>, st: State, i: nat)
    requires AllRecased(confs, others) && i <= |st.names| == |cards|
    ensures ByAddress(cards, confs, st, i) == ByAddress(cards, others, st, i)
    ensures ByDriver(cards, confs, st, i) == ByDriver(cards, others, st, i)
    decreases |cards| - i
  {
    hide ByAddressOne, ByDriverOne, AllRecased;
    if i < |cards| {
      RecasedOne(cards, confs, others, st, i, 0) by { assert 0 <= |confs|; }
      var turn := cards[i].network && cards[i].hwaddr.Some?;
      RecasedPasses(cards, confs, others, if turn then ByAddressOne(cards, confs, st, i, 0) else st, i + 1);
      RecasedPasses(cards, confs, others, if cards[i].network then ByDriverOne(cards, confs, st, i, 0) else st, i + 1);
    }
  }

  // Writing the letters of configured addresses in the other case changes no name.
  lemma CaseDoesNotMatter(cards: seq<Card>, confs: seq<Conf>, others: seq<Conf>, names: seq<string>)
    requires AllRecased(confs, others) && |names| == |cards|
    ensures MatchNet(cards, confs, names) == MatchNet(cards, others, names)
  {
    hide AllRecased, ByNumber, ByAddress, ByDriver;
    RecasedPasses(cards, confs, others, State(names, []), 0);
    RecasedPasses(cards, confs, others, ByAddress(cards, confs, State(names, []), 0), 0);
  }

  // -------------------------------------------------------------- names that are lost

  // A device found with the name configured for it is not renamed, so the name is not
  // recorded; pass 4 gives it to another device, and the first one, already passed, ends
  // with a generic name.
  lemma ConfiguredNameIsLost()
    ensures var cards := [Card(true, None, Some("aa")), Card(true, None, None)];
            var confs := [Conf("eth0", "aa", "")];
            MatchNet(cards, confs, ["eth0", "eth"]) == State(["eth", "eth0"], ["eth0"])
  {
    var cards := [Card(true, None, Some("aa")), Card(true, None, None)];
    var confs := [Conf("eth0", "aa", "")];
    var st := State(["eth0", "eth"], []);
    assert ByAddressOne(cards, confs, st, 0, 0) == ByAddressOne(cards, confs, st, 0, 1) == st;
    assert ByAddress(cards, confs, st, 1) == ByAddress(cards, confs, st, 2) == st;
    assert ByDriverOne(cards, confs, st, 0, 0) == ByDriverOne(cards, confs, st, 0, 1) == st;
    assert ByDriverOne(cards, confs, st, 1, 0) == ByDriverOne(cards, confs, st, 1, 1) == st;
    assert ByDriver(cards, confs, st, 1) == ByDriver(cards, confs, st, 2) == st;
    assert "eth0"[0] == 'e' && "fddi"[0] == 'f';
    assert NumberStep(cards, st, FIRST, 0) == (st, FIRST);
    EnoughNumbers("eth");
    NumberedIsWhole("eth", 0);
    assert Numbered("eth", 0) == "eth0";
    assert Free("eth", 0, []) == 0;
    assert "eth" <= "eth0";
    assert st.names[1 := "eth0"] == ["eth0", "eth0"];
    assert Demote(cards, ["eth0", "eth0"], 1) == ["eth", "eth0"];
    var next := NumberStep(cards, st, FIRST, 1);
    assert next.0 == State(["eth", "eth0"], ["eth0"]);
  }

  const SWAPPED_CARDS := [Card(true, Some("e1000"), Some("aa")), Card(true, Some("e1000"), Some("bb"))]
  const SWAPPED_CONFS := [Conf("eth1", "bb", "e1000"), Conf("eth0", "aa", "e1000")]

  lemma NobodyIsRenamed()
    ensures var st := State(["eth0", "eth1"], []); ByAddress(SWAPPED_CARDS, SWAPPED_CONFS, st, 0) == st
  {
    hide Take;
    var cards, confs, st := SWAPPED_CARDS, SWAPPED_CONFS, State(["eth0", "eth1"], []);
    assert !SameIgnoringCase("aa", "bb") && !SameIgnoringCase("bb", "aa") by {
      assert LowerChar("aa"[0]) != LowerChar("bb"[0]);
    }
    forall i | 0 <= i < 2 ensures ByAddressOne(cards, confs, st, i, 0) == st {
      assert ByAddressOne(cards, confs, st, i, 2) == st;
      assert ByAddressOne(cards, confs, st, i, 1) == st;
    }
    assert ByAddress(cards, confs, st, 2) == st;
    assert ByAddress(cards, confs, st, 1) == st;
  }

  lemma NamesAreGuessed()
    ensures var st, s := State(["eth0", "eth1"], []), State(["eth1", "eth0"], ["eth1", "eth0"]);
            ByDriver(SWAPPED_CARDS, SWAPPED_CONFS, st, 0) == s
  {
    var cards, confs, st := SWAPPED_CARDS, SWAPPED_CONFS, State(["eth0", "eth1"], []);
    assert "eth0"[3] == '0' && "eth1"[3] == '1' && "eth" <= "eth1" && Generic("eth1") == "eth";
    var mid := Take(cards, st, 0, "eth1");
    assert st.names[0 := "eth1"] == ["eth1", "eth1"];
    assert mid == State(["eth1", "eth"], ["eth1"]);
    var s := Take(cards, mid, 1, "eth0");
    assert mid.names[1 := "eth0"] == ["eth1", "eth0"];
    assert s == State(["eth1", "eth0"], ["eth1", "eth0"]);
    hide Take;
    assert ByDriverOne(cards, confs, st, 0, 0) == mid;
    assert ByDriverOne(cards, confs, mid, 1, 1) == s;
    assert ByDriverOne(cards, confs, mid, 1, 0) == s;
    assert ByDriver(cards, confs, mid, 1) == ByDriver(cards, confs, s, 2) == s;
  }

  // Two devices of one driver, each found with the name configured for its address: pass 1
  // records nothing, and pass 2 guesses the names the other way round.
  lemma ConfiguredNamesAreSwapped()
    ensures OwnName(SWAPPED_CARDS[0], SWAPPED_CONFS, "eth0") == "eth0"
    ensures OwnName(SWAPPED_CARDS[1], SWAPPED_CONFS, "eth1") == "eth1"
    ensures MatchNet(SWAPPED_CARDS, SWAPPED_CONFS, ["eth0", "eth1"]) == State(["eth1", "eth0"], ["eth1", "eth0"])
  {
    var cards, confs, s := SWAPPED_CARDS, SWAPPED_CONFS, State(["eth1", "eth0"], ["eth1", "eth0"]);
    assert LowerChar("aa"[0]) != LowerChar("bb"[0]);
    assert ConfiguredFor("aa", confs, 2) == ConfiguredFor("bb", confs, 2) == ConfiguredFor("bb", confs, 1) == None;
    assert ConfiguredFor("aa", confs, 1) == Some("eth0");
    hide ByAddress, ByDriver, Take, Free;
    NobodyIsRenamed();
    NamesAreGuessed();
    assert "eth0"[3] == '0' && "eth1"[3] == '1' && "fddi"[0] == 'f';
    assert NumberStep(cards, s, FIRST, 0) == NumberStep(cards, s, FIRST, 1) == (s, FIRST);
  }
}
