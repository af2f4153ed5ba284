// What the name assignment promises: no recorded name is held twice, over all three
// passes, and how many names are enough for it to end.
module NetNamesTheory {
  import opened Common
  import opened Text
  import opened NetNames

  // ------------------------------------------------- what is never given twice

  // At most one network device holds a recorded name, unless the name is generic.
  ghost predicate Unique(cards: seq<Card>, st: State) {
    && |st.names| == |cards|
    && forall i, j :: 0 <= i < j < |cards| && cards[i].network && cards[j].network && st.names[i] == st.names[j]
         ==> st.names[i] !in st.recorded || Bare(st.names[i])
  }

  // The device holds a recorded name of its own.
  predicate Holds(st: State, k: nat)
    requires k < |st.names|
  {
    st.names[k] in st.recorded && !Bare(st.names[k])
  }

  lemma TakeKeepsUnique(cards: seq<Card>, st: State, i: nat, name: string)
    requires Unique(cards, st) && i < |cards|
    ensures Unique(cards, Take(cards, st, i, name))
  {
    var r := Take(cards, st, i, name);
    var mid := st.names[i := name];
    forall a, b | 0 <= a < b < |cards| && cards[a].network && cards[b].network && r.names[a] == r.names[b]
      ensures r.names[a] !in r.recorded || Bare(r.names[a])
    {
      assert r.names[a] == mid[a] || Bare(r.names[a]);
      assert r.names[b] == mid[b] || Bare(r.names[b]);
      if !Bare(r.names[a]) {
        assert r.names[a] != name;
        assert mid[a] == st.names[a] && mid[b] == st.names[b];
      }
    }
  }

  // Taking an unrecorded name leaves every holder of a recorded one alone.
  lemma TakeSparesHolders(cards: seq<Card>, st: State, i: nat, name: string, k: nat)
    requires i < |st.names| == |cards| && k < |cards| && k != i && st.names[k] != name
    ensures var r := Take(cards, st, i, name);
            r.names[k] == st.names[k] && (st.names[k] in st.recorded ==> r.names[k] in r.recorded)
  {
  }

  lemma {:induction false} AddressOneKeepsUnique(cards: seq<Card>, confs: seq<Conf>, st: State, i: nat, j: nat)
    requires Unique(cards, st) && i < |cards| && j <= |confs| && cards[i].hwaddr.Some?
    ensures Unique(cards, ByAddressOne(cards, confs, st, i, j))
    decreases |confs| - j
  {
    if j < |confs| {
      var hit := SameIgnoringCase(cards[i].hwaddr.value, confs[j].hwaddr) && st.names[i] != confs[j].dev;
      if hit { TakeKeepsUnique(cards, st, i, confs[j].dev); }
      AddressOneKeepsUnique(cards, confs, if hit then Take(cards, st, i, confs[j].dev) else st, i, j + 1);
    }
  }

  lemma {:induction false} AddressKeepsUnique(cards: seq<Card>, confs: seq<Conf>, st: State, i: nat)
    requires Unique(cards, st) && i <= |cards|
    ensures Unique(cards, ByAddress(cards, confs, st, i))
    decreases |cards| - i
  {
    if i < |cards| {
      if cards[i].network && cards[i].hwaddr.Some? {
        AddressOneKeepsUnique(cards, confs, st, i, 0);
        AddressKeepsUnique(cards, confs, ByAddressOne(cards, confs, st, i, 0), i + 1);
      } else {
        AddressKeepsUnique(cards, confs, st, i + 1);
      }
    }
  }

  lemma {:induction false} DriverOneKeepsUnique(cards: seq<Card>, confs: seq<Conf>, st: State, i: nat, j: nat)
    requires Unique(cards, st) && i < |cards| && j <= |confs|
    ensures Unique(cards, ByDriverOne(cards, confs, st, i, j))
    decreases |confs| - j
  {
    if j < |confs| {
      if cards[i].driver == Some(confs[j].driver) && confs[j].dev !in st.recorded {
        TakeKeepsUnique(cards, st, i, confs[j].dev);
      } else {
        DriverOneKeepsUnique(cards, confs, st, i, j + 1);
      }
    }
  }

  lemma {:induction false} DriverKeepsUnique(cards: seq<Card>, confs: seq<Conf>, st: State, i: nat)
    requires Unique(cards, st) && i <= |cards|
    ensures Unique(cards, ByDriver(cards, confs, st, i))
    decreases |cards| - i
  {
    if i < |cards| {
      if cards[i].network {
        DriverOneKeepsUnique(cards, confs, st, i, 0);
        DriverKeepsUnique(cards, confs, ByDriverOne(cards, confs, st, i, 0), i + 1);
      } else {
        DriverKeepsUnique(cards, confs, st, i + 1);
      }
    }
  }

  lemma ConfiguredIsUnique(cards: seq<Card>, confs: seq<Conf>, names: seq<string>)
    requires |names| == |cards|
    ensures Unique(cards, Configured(cards, confs, names))
  {
    AddressKeepsUnique(cards, confs, State(names, []), 0);
    DriverKeepsUnique(cards, confs, ByAddress(cards, confs, State(names, []), 0), 0);
  }

  // Pass 4 at device i: its loops will end, and the counters are past recorded names only.
  ghost predicate Ready(cards: seq<Card>, st: State, last: Last, i: nat) {
    |st.names| == |cards| && i <= |cards| && Exhausted(last, st.recorded) && Numberable(cards, st, last, i)
  }

  lemma NumberStepKeepsReady(cards: seq<Card>, st: State, last: Last, i: nat)
    requires Ready(cards, st, last, i) && i < |cards|
    ensures var next := NumberStep(cards, st, last, i); Ready(cards, next.0, next.1, i + 1)
  {
    StepKeepsExhausted(cards, st, last, i);
  }

  // The holder of a recorded name keeps it in a step of pass 4, and the name stays
  // recorded.
  lemma StepSparesHolders(cards: seq<Card>, st: State, last: Last, i: nat)
    requires Unique(cards, st) && Ready(cards, st, last, i) && i < |cards|
    ensures var next := NumberStep(cards, st, last, i).0;
            && Unique(cards, next)
            && (forall k :: 0 <= k < |cards| && Holds(st, k) ==> next.names[k] == st.names[k] && Holds(next, k))
  {
    if cards[i].network && Bare(st.names[i]) {
      var prefix := st.names[i];
      var name := Numbered(prefix, Free(prefix, LastOf(last, prefix), st.recorded));
      FreeIsFree(prefix, last, st.recorded);
      TakeKeepsUnique(cards, st, i, name);
    }
  }

  // Pass 4 keeps Unique, and a name once recorded is never taken from its holder.
  lemma {:induction false} NumberingSparesHolders(cards: seq<Card>, st: State, last: Last, i: nat)
    requires Unique(cards, st) && Ready(cards, st, last, i)
    ensures var r := ByNumber(cards, st, last, i);
            && Unique(cards, r)
            && (forall k :: 0 <= k < |cards| && Holds(st, k) ==> r.names[k] == st.names[k] && Holds(r, k))
    decreases |cards| - i
  {
    hide Numberable, Exhausted, Unique;
    if i < |cards| {
      StepSparesHolders(cards, st, last, i);
      NumberStepKeepsReady(cards, st, last, i);
      var next := NumberStep(cards, st, last, i);
      NumberingSparesHolders(cards, next.0, next.1, i + 1);
    }
  }

  lemma NothingIsExhausted(recorded: seq<string>)
    ensures Exhausted(FIRST, recorded)
  {
  }

  // After all passes every recorded name is held by at most one network device.
  lemma MatchedNamesAreUnique(cards: seq<Card>, confs: seq<Conf>, names: seq<string>)
    requires |names| == |cards| && Numberable(cards, Configured(cards, confs, names), FIRST, 0)
    ensures Unique(cards, MatchNet(cards, confs, names))
  {
    hide Numberable, Configured, Exhausted, Unique;
    var st := Configured(cards, confs, names);
    ConfiguredIsUnique(cards, confs, names);
    NothingIsExhausted(st.recorded);
    NumberingSparesHolders(cards, st, FIRST, 0);
  }

  // ------------------------------------------------------------- generic names

  // The generic name of a name: the kind it starts with, "eth" before the others and for
  // any other name.
  lemma GenericIs(name: string)
    ensures Generic(name) == "tr" <==> |name| >= 2 && name[0] == 't' && name[1] == 'r'
    ensures Generic(name) == "fddi"
       <==> |name| >= 4 && name[0] == 'f' && name[1] == 'd' && name[2] == 'd' && name[3] == 'i'
    ensures Generic(name) in ["eth", "tr", "fddi"]
  {
    assert "eth"[0] == 'e' && "tr"[0] == 't' && "tr"[1] == 'r' && |"tr"| == 2;
    assert "fddi"[0] == 'f' && "fddi"[1] == 'd' && "fddi"[2] == 'd' && "fddi"[3] == 'i' && |"fddi"| == 4;
    if "tr" <= name { assert name[0] == "tr"[0] && name[1] == "tr"[1]; }
    if |name| >= 2 && name[0] == 't' && name[1] == 'r' { assert name[..2] == "tr"; }
    if "fddi" <= name { assert name[..4] == "fddi"; }
    if |name| >= 4 && name[0] == 'f' && name[1] == 'd' && name[2] == 'd' && name[3] == 'i' {
      assert name[..4] == "fddi";
    }
    if "eth" <= name { assert name[0] == "eth"[0]; }
  }

  // Giving device i a name: it has the name, and of the other network devices exactly those
  // that had it have the generic one.
  lemma TakeIs(cards: seq<Card>, st: State, i: nat, name: string, k: nat)
    requires i < |st.names| == |cards| && k < |cards|
    ensures var r := Take(cards, st, i, name);
            && r.names[k] == (if k == i then name
                              else if cards[k].network && st.names[k] == name then Generic(name)
                              else st.names[k])
            && r.recorded == st.recorded + [name]
  {
  }

  // How many numbers the buffer of nine bytes holds whole.
  lemma NumberLimits()
    ensures Limit("eth") == 100_000 && Limit("tr") == 1_000_000 && Limit("fddi") == 10_000
  {
    assert Power(10, 2) == 100 && Power(10, 4) == 10_000 && Power(10, 5) == 100_000 && Power(10, 6) == 1_000_000;
  }

  // Pass 4 without its counters: each device takes the least number whose name is free.
  function ByLeast(cards: seq<Card>, st: State, i: nat): (r: State)
    requires i <= |st.names| == |cards|
    ensures |r.names| == |st.names|
    decreases |cards| - i
  {
    if i == |cards| then st
    else if cards[i].network && Bare(st.names[i]) then
      ByLeast(cards, Take(cards, st, i, Numbered(st.names[i], Free(st.names[i], 0, st.recorded))), i + 1)
    else ByLeast(cards, st, i + 1)
  }

  lemma {:induction false} FreeFrom(p: string, k: nat, n: nat, recorded: seq<string>)
    requires Bare(p) && k <= n <= Limit(p) && forall m :: k <= m < n ==> Numbered(p, m) in recorded
    ensures Free(p, k, recorded) == Free(p, n, recorded)
    decreases n - k
  {
    hide Limit, Numbered;
    if k < n { FreeFrom(p, k + 1, n, recorded); }
  }

  // The counters change nothing.
  lemma {:induction false} NumbersAreLeast(cards: seq<Card>, st: State, last: Last, i: nat)
    requires Ready(cards, st, last, i)
    ensures ByNumber(cards, st, last, i) == ByLeast(cards, st, i)
    decreases |cards| - i
  {
    hide Take, Numbered, Limit, Free;
    if i < |cards| {
      var next := NumberStep(cards, st, last, i);
      NumberStepKeepsReady(cards, st, last, i);
      NumbersAreLeast(cards, next.0, next.1, i + 1);
      if cards[i].network && Bare(st.names[i]) {
        FreeFrom(st.names[i], 0, LastOf(last, st.names[i]), st.recorded);
      }
    }
  }

  // ------------------------------------------------ enough numbers for everyone

  function SetOf(list: seq<string>): set<string> { set n | n in list }

  // The first n names of a kind.
  function FirstNames(prefix: string, n: nat): set<string> {
    if n == 0 then {} else FirstNames(prefix, n - 1) + {Numbered(prefix, n - 1)}
  }

  lemma {:induction false} FirstNamesCount(prefix: string, n: nat)
    requires Bare(prefix) && n <= Limit(prefix)
    ensures |FirstNames(prefix, n)| == n
    ensures forall x :: x in FirstNames(prefix, n) ==> exists m :: 0 <= m < n && x == Numbered(prefix, m)
  {
    hide Limit, Numbered;
    if n > 0 {
      FirstNamesCount(prefix, n - 1);
      if Numbered(prefix, n - 1) in FirstNames(prefix, n - 1) {
        var m :| 0 <= m < n - 1 && Numbered(prefix, n - 1) == Numbered(prefix, m);
        NumberedInjective(prefix, n - 1, prefix, m);
        assert false;
      }
      forall x | x in FirstNames(prefix, n) ensures exists m :: 0 <= m < n && x == Numbered(prefix, m) {
        if x == Numbered(prefix, n - 1) { assert 0 <= n - 1 < n; }
      }
    }
  }

  // Distinct numbered names need distinct entries of the list.
  lemma Pigeonhole(prefix: string, n: nat, list: seq<string>)
    requires Bare(prefix) && n <= Limit(prefix) && forall m :: 0 <= m < n ==> Numbered(prefix, m) in list
    ensures n <= |SetOf(list)|
  {
    FirstNamesCount(prefix, n);
    assert FirstNames(prefix, n) <= SetOf(list);
    SubsetSize(FirstNames(prefix, n), SetOf(list));
  }

  // The fewest numbers a prefix has room for are those of "fddi".
  const NUMBERS := 10000

  lemma EnoughNumbers(prefix: string)
    requires Bare(prefix)
    ensures Limit(prefix) >= NUMBERS
  {
    assert Power(10, 2) == 100 && Power(10, 4) == 10000 && Power(10, 5) == 100000 && Power(10, 6) == 1000000;
  }

  lemma FewAreFresh(prefix: string, recorded: seq<string>)
    requires Bare(prefix) && |SetOf(recorded)| < NUMBERS
    ensures Fresh(prefix, recorded)
  {
    EnoughNumbers(prefix);
    NumberingEndsIff(prefix, 0, recorded);
    var n := Free(prefix, 0, recorded);
    if n == Limit(prefix) { Pigeonhole(prefix, n, recorded); }
  }

  lemma {:induction false} FewAreNumberable(cards: seq<Card>, st: State, last: Last, i: nat)
    requires |st.names| == |cards| && i <= |cards| && |SetOf(st.recorded)| + |cards| <= NUMBERS + i
    ensures Numberable(cards, st, last, i)
    decreases |cards| - i
  {
    if i < |cards| {
      var next := NumberStep(cards, st, last, i);
      if cards[i].network && Bare(st.names[i]) {
        FewAreFresh(st.names[i], st.recorded);
        assert next.0.recorded == st.recorded + [next.0.recorded[|st.recorded|]];
        assert SetOf(next.0.recorded) == SetOf(st.recorded) + {next.0.recorded[|st.recorded|]};
      }
      FewAreNumberable(cards, next.0, next.1, i + 1);
    }
  }

  // The configured names.
  function ConfNames(confs: seq<Conf>): set<string> { set j | 0 <= j < |confs| :: confs[j].dev }

  lemma {:induction false} ConfNamesCount(confs: seq<Conf>)
    ensures |ConfNames(confs)| <= |confs|
  {
    if confs != [] {
      var init, last := confs[..|confs| - 1], confs[|confs| - 1];
      ConfNamesCount(init);
      assert ConfNames(confs) == ConfNames(init) + {last.dev} by {
        forall x | x in ConfNames(confs) ensures x in ConfNames(init) + {last.dev} {
          var j :| 0 <= j < |confs| && confs[j].dev == x;
          if j < |init| { assert init[j] == confs[j]; }
        }
        forall x | x in ConfNames(init) ensures x in ConfNames(confs) {
          var j :| 0 <= j < |init| && init[j].dev == x;
          assert confs[j] == init[j];
        }
      }
    }
  }

  lemma {:induction false} ConfiguredOne(cards: seq<Card>, confs: seq<Conf>, st: State, i: nat, j: nat)
    requires i < |st.names| == |cards| && j <= |confs| && cards[i].hwaddr.Some?
    requires SetOf(st.recorded) <= ConfNames(confs)
    ensures SetOf(ByAddressOne(cards, confs, st, i, j).recorded) <= ConfNames(confs)
    decreases |confs| - j
  {
    if j < |confs| {
      var hit := SameIgnoringCase(cards[i].hwaddr.value, confs[j].hwaddr) && st.names[i] != confs[j].dev;
      ConfiguredOne(cards, confs, if hit then Take(cards, st, i, confs[j].dev) else st, i, j + 1);
    }
  }

  // Passes 1 and 2 record configured names only.
  lemma {:induction false} ConfiguredAreRecorded(cards: seq<Card>, confs: seq<Conf>, st: State, i: nat)
    requires |st.names| == |cards| && i <= |cards| && SetOf(st.recorded) <= ConfNames(confs)
    ensures SetOf(ByAddress(cards, confs, st, i).recorded) <= ConfNames(confs)
    decreases |cards| - i
  {
    if i < |cards| {
      if cards[i].network && cards[i].hwaddr.Some? {
        ConfiguredOne(cards, confs, st, i, 0);
        ConfiguredAreRecorded(cards, confs, ByAddressOne(cards, confs, st, i, 0), i + 1);
      } else {
        ConfiguredAreRecorded(cards, confs, st, i + 1);
      }
    }
  }

  lemma {:induction false} DriverOne(cards: seq<Card>, confs: seq<Conf>, st: State, i: nat, j: nat)
    requires i < |st.names| == |cards| && j <= |confs| && SetOf(st.recorded) <= ConfNames(confs)
    ensures SetOf(ByDriverOne(cards, confs, st, i, j).recorded) <= ConfNames(confs)
    decreases |confs| - j
  {
    if j < |confs| { DriverOne(cards, confs, st, i, j + 1); }
  }

  lemma {:induction false} DriversAreRecorded(cards: seq<Card>, confs: seq<Conf>, st: State, i: nat)
    requires |st.names| == |cards| && i <= |cards| && SetOf(st.recorded) <= ConfNames(confs)
    ensures SetOf(ByDriver(cards, confs, st, i).recorded) <= ConfNames(confs)
    decreases |cards| - i
  {
    if i < |cards| {
      DriverOne(cards, confs, st, i, 0);
      DriversAreRecorded(cards, confs, if cards[i].network then ByDriverOne(cards, confs, st, i, 0) else st, i + 1);
    }
  }

  lemma OnlyConfNames(cards: seq<Card>, confs: seq<Conf>, names: seq<string>)
    requires |names| == |cards|
    ensures SetOf(Configured(cards, confs, names).recorded) <= ConfNames(confs)
  {
    ConfiguredAreRecorded(cards, confs, State(names, []), 0);
    DriversAreRecorded(cards, confs, ByAddress(cards, confs, State(names, []), 0), 0);
  }

  // With at most 10000 configurations and devices, everything ends.
  lemma FewDevicesEnd(cards: seq<Card>, confs: seq<Conf>, names: seq<string>)
    requires |names| == |cards| && |confs| + |cards| <= NUMBERS
    ensures Numberable(cards, Configured(cards, confs, names), FIRST, 0)
  {
    var st := Configured(cards, confs, names);
    OnlyConfNames(cards, confs, names);
    ConfNamesCount(confs);
    SubsetSize(SetOf(st.recorded), ConfNames(confs));
    FewAreNumberable(cards, st, FIRST, 0);
  }

  // Without a free number a loop does not end: with all numbers of a kind recorded that
  // are written whole, no number at all gives a fresh name.
  lemma NumbersRunOut(prefix: string, list: seq<string>, k: nat)
    requires Bare(prefix) && forall m :: 0 <= m < Limit(prefix) ==> Numbered(prefix, m) in list
    ensures Numbered(prefix, k) in list
  {
    NumberingEndsIff(prefix, Limit(prefix), list);
  }
}
