// Which names the network devices end with: exactly when they are all different, and
// exactly when a device keeps the name it has.
module NetNumberTheory {
  import opened Common
  import opened NetNames
  import opened NetNamesTheory

  // ------------------------------------------- pass 4, seen from its start state

  // Numbers are handed out in order, those of recorded names left out. Before the counters
  // reach `last`, these names have been: the unrecorded ones with a smaller number.
  ghost predicate HandedOut(last: Last, recorded: seq<string>, name: string) {
    name !in recorded && exists p, n :: Bare(p) && 0 <= n < LastOf(last, p) && name == Numbered(p, n)
  }

  // A device whose name at the start was this takes a number when its turn comes: the name
  // is generic, or has become so because it was handed out to an earlier device.
  ghost predicate TakesNumber(last: Last, recorded: seq<string>, name: string) {
    Bare(name) || HandedOut(last, recorded, name)
  }

  // The counters before device i's turn, from the names and the record at the start.
  ghost function Counters(cards: seq<Card>, st: State, i: nat): Last
    requires i <= |st.names| == |cards|
  {
    if i == 0 then FIRST
    else
      var last := Counters(cards, st, i - 1);
      if cards[i - 1].network && TakesNumber(last, st.recorded, st.names[i - 1]) then
        var p := Generic(st.names[i - 1]);
        WithLast(last, p, Free(p, LastOf(last, p), st.recorded) + 1)
      else last
  }

  ghost predicate TakesAt(cards: seq<Card>, st: State, i: nat)
    requires i < |st.names| == |cards|
  {
    TakesNumber(Counters(cards, st, i), st.recorded, st.names[i])
  }

  // What has become of a name that its holder was not given in pass 4.
  ghost function Now(last: Last, recorded: seq<string>, name: string): string {
    if HandedOut(last, recorded, name) then Generic(name) else name
  }

  // The name that a number makes for device i: of its kind, the first number from the
  // counter on whose name is not recorded.
  ghost function NumberAt(cards: seq<Card>, st: State, i: nat): string
    requires i < |st.names| == |cards|
  {
    var p := Generic(st.names[i]);
    Numbered(p, Free(p, LastOf(Counters(cards, st, i), p), st.recorded))
  }

  // Pass 4 before device k, in terms of its start state s.
  ghost predicate Tracks(cards: seq<Card>, s: State, st: State, last: Last, k: nat) {
    && |s.names| == |st.names| == |cards| && k <= |cards|
    && last == Counters(cards, s, k)
    && (forall x :: x in st.recorded <==> x in s.recorded || HandedOut(last, s.recorded, x))
    && (forall j :: 0 <= j < |cards| && cards[j].network ==> Tracked(cards, s, st, last, k, j))
  }

  ghost predicate Tracked(cards: seq<Card>, s: State, st: State, last: Last, k: nat, j: nat)
    requires |s.names| == |st.names| == |cards| && j < |cards|
  {
    if j < k && TakesAt(cards, s, j)
    then Holds(st, j) && st.names[j] == NumberAt(cards, s, j)
         && st.names[j] !in s.recorded && st.names[j] != s.names[j]
    else st.names[j] == Now(last, s.recorded, s.names[j])
  }

  lemma GenericOfBare(name: string)
    requires Bare(name)
    ensures Generic(name) == name
  {
    assert "eth"[0] == 'e' && "tr"[0] == 't' && "fddi"[0] == 'f';
  }

  ghost predicate InLimits(last: Last) { forall p :: Bare(p) ==> LastOf(last, p) <= Limit(p) }

  // From the counter on, the record in between and the record at the start agree.
  lemma {:induction false} FreeAgrees(p: string, k: nat, last: Last, s: State, st: State)
    requires Bare(p) && InLimits(last) && LastOf(last, p) <= k
    requires forall x :: x in st.recorded <==> x in s.recorded || HandedOut(last, s.recorded, x)
    ensures Free(p, k, st.recorded) == Free(p, k, s.recorded)
    decreases Limit(p) - k
  {
    if k < Limit(p) {
      var x := Numbered(p, k);
      if HandedOut(last, s.recorded, x) {
        var q, m :| Bare(q) && 0 <= m < LastOf(last, q) && x == Numbered(q, m);
        NumberedInjective(p, k, q, m);
      }
      FreeAgrees(p, k + 1, last, s, st);
    }
  }

  // Handing out one more number.
  lemma OneMore(last: Last, recorded: seq<string>, p: string, n: nat, x: string)
    requires Bare(p) && n == Free(p, LastOf(last, p), recorded) && n < Limit(p)
    ensures HandedOut(WithLast(last, p, n + 1), recorded, x) <==> HandedOut(last, recorded, x) || x == Numbered(p, n)
  {
    hide Numbered, Limit;
    OneMoreAtMost(last, recorded, p, n, x);
    var next := WithLast(last, p, n + 1);
    if HandedOut(last, recorded, x) {
      var q, m :| Bare(q) && 0 <= m < LastOf(last, q) && x == Numbered(q, m);
      assert m < LastOf(next, q);
    }
    if x == Numbered(p, n) { assert n < LastOf(next, p); }
  }

  lemma OneMoreAtMost(last: Last, recorded: seq<string>, p: string, n: nat, x: string)
    requires Bare(p) && n == Free(p, LastOf(last, p), recorded) && n < Limit(p)
    ensures HandedOut(WithLast(last, p, n + 1), recorded, x) ==> HandedOut(last, recorded, x) || x == Numbered(p, n)
  {
    hide Numbered, Limit;
    var next := WithLast(last, p, n + 1);
    if HandedOut(next, recorded, x) {
      var q, m :| Bare(q) && 0 <= m < LastOf(next, q) && x == Numbered(q, m);
      if q == p && m < n { assert m < LastOf(last, p); }
    }
  }

  // ------------------------------------------------------------ one more device

  // Device j, when device k takes the name n-th of its kind.
  lemma TrackedAfterTake(cards: seq<Card>, s: State, st: State, last: Last, k: nat, name: string, next: Last, j: nat)
    requires Tracks(cards, s, st, last, k) && k < |cards| && cards[k].network && TakesAt(cards, s, k)
    requires j < |cards| && cards[j].network && name !in st.recorded && !Bare(name) && name == NumberAt(cards, s, k)
    requires forall x :: HandedOut(next, s.recorded, x) <==> HandedOut(last, s.recorded, x) || x == name
    ensures Tracked(cards, s, Take(cards, st, k, name), next, k + 1, j)
  {
    hide NumberAt, Counters;
    var r := Take(cards, st, k, name);
    assert r.recorded[|st.recorded|] == name;
    assert Tracked(cards, s, st, last, k, j) && Tracked(cards, s, st, last, k, k);
    if j == k {
      assert HandedOut(last, s.recorded, s.names[k]) ==> s.names[k] in st.recorded;
    } else if j < k && TakesAt(cards, s, j) {
      assert st.names[j] != name;
    } else {
      var x := s.names[j];
      assert HandedOut(last, s.recorded, x) ==> x in st.recorded;
    }
  }

  lemma TurnIsBare(cards: seq<Card>, s: State, st: State, last: Last, k: nat)
    requires Tracks(cards, s, st, last, k) && k < |cards| && cards[k].network
    ensures Bare(st.names[k]) <==> TakesAt(cards, s, k)
    ensures TakesAt(cards, s, k) ==> st.names[k] == Generic(s.names[k])
  {
    assert Tracked(cards, s, st, last, k, k);
    if Bare(s.names[k]) { GenericOfBare(s.names[k]); }
  }

  // Device k's turn: its loop ends, and the counters are past recorded names only.
  ghost predicate Steady(cards: seq<Card>, st: State, last: Last, k: nat)
    requires k < |st.names| == |cards|
  {
    Exhausted(last, st.recorded) && (cards[k].network && Bare(st.names[k]) ==> Fresh(st.names[k], st.recorded))
  }

  lemma TracksTake(cards: seq<Card>, s: State, st: State, last: Last, k: nat)
    requires Tracks(cards, s, st, last, k) && k < |cards| && Steady(cards, st, last, k)
    requires cards[k].network && Bare(st.names[k]) && TakesAt(cards, s, k)
    ensures var next := NumberStep(cards, st, last, k); Tracks(cards, s, next.0, next.1, k + 1)
  {
    hide HandedOut, Numbered, Limit, Free, Tracked;
    TurnIsBare(cards, s, st, last, k);
    var next := NumberStep(cards, st, last, k);
    var p := st.names[k];
    var n := Free(p, LastOf(last, p), st.recorded);
    var name := Numbered(p, n);
    FreeIsFree(p, last, st.recorded);
    FreeAgrees(p, LastOf(last, p), last, s, st);
    assert name == NumberAt(cards, s, k);
    forall x
      ensures HandedOut(next.1, s.recorded, x) <==> HandedOut(last, s.recorded, x) || x == name
      ensures x in next.0.recorded <==> x in s.recorded || HandedOut(next.1, s.recorded, x)
    {
      OneMore(last, s.recorded, p, n, x);
      assert next.0.recorded == st.recorded + [name];
    }
    forall j | 0 <= j < |cards| && cards[j].network ensures Tracked(cards, s, next.0, next.1, k + 1, j) {
      TrackedAfterTake(cards, s, st, last, k, name, next.1, j);
    }
  }

  lemma TracksStep(cards: seq<Card>, s: State, st: State, last: Last, k: nat)
    requires Tracks(cards, s, st, last, k) && k < |cards| && Steady(cards, st, last, k)
    ensures var next := NumberStep(cards, st, last, k); Tracks(cards, s, next.0, next.1, k + 1)
  {
    hide HandedOut, Numbered, Limit, Free, Tracked, TakesAt;
    if cards[k].network {
      TurnIsBare(cards, s, st, last, k);
      if TakesAt(cards, s, k) { TracksTake(cards, s, st, last, k); } else { Untaken(cards, s, st, last, k); }
    } else {
      Untaken(cards, s, st, last, k);
    }
  }

  // A device that takes no number changes nothing.
  lemma Untaken(cards: seq<Card>, s: State, st: State, last: Last, k: nat)
    requires Tracks(cards, s, st, last, k) && k < |cards| && !(cards[k].network && TakesAt(cards, s, k))
    ensures Tracks(cards, s, st, last, k + 1)
  {
    hide HandedOut, NumberAt, Free;
    forall j | 0 <= j < |cards| && cards[j].network ensures Tracked(cards, s, st, last, k + 1, j) {
      assert Tracked(cards, s, st, last, k, j);
    }
  }

  lemma TracksStart(cards: seq<Card>, s: State)
    requires |s.names| == |cards|
    ensures Tracks(cards, s, s, FIRST, 0)
  {
  }

  lemma {:induction false} NumberingTracks(cards: seq<Card>, s: State, st: State, last: Last, k: nat)
    requires Tracks(cards, s, st, last, k) && Unique(cards, st) && Ready(cards, st, last, k)
    ensures var r := ByNumber(cards, st, last, k);
            Tracks(cards, s, r, Counters(cards, s, |cards|), |cards|) && Unique(cards, r)
    decreases |cards| - k
  {
    hide Tracked, HandedOut, Unique;
    if k < |cards| {
      TracksStep(cards, s, st, last, k);
      StepSparesHolders(cards, st, last, k);
      NumberStepKeepsReady(cards, st, last, k);
      var next := NumberStep(cards, st, last, k);
      NumberingTracks(cards, s, next.0, next.1, k + 1);
    }
  }

  // ------------------------------------------------------------ when pass 4 ends

  // If device i takes a number, the buffer holds one whole whose name is not recorded, from
  // its counter on.
  ghost predicate HasRoom(cards: seq<Card>, s: State, i: nat)
    requires i < |s.names| == |cards|
  {
    TakesAt(cards, s, i) ==>
      var p := Generic(s.names[i]);
      Free(p, LastOf(Counters(cards, s, i), p), s.recorded) < Limit(p)
  }

  lemma LoopEndsIff(cards: seq<Card>, s: State, st: State, last: Last, k: nat)
    requires Tracks(cards, s, st, last, k) && k < |cards| && cards[k].network && Exhausted(last, st.recorded)
    ensures HasRoom(cards, s, k) <==> Steady(cards, st, last, k)
  {
    hide HandedOut, Numbered, Limit, Free, Tracked, TakesAt, Counters, Fresh;
    TurnIsBare(cards, s, st, last, k);
    if TakesAt(cards, s, k) {
      var p := st.names[k];
      NumberingEndsIff(p, LastOf(last, p), st.recorded);
      FreeAgrees(p, LastOf(last, p), last, s, st);
    }
  }

  lemma TracksLengths(cards: seq<Card>, s: State, st: State, last: Last, k: nat)
    requires Tracks(cards, s, st, last, k)
    ensures |s.names| == |st.names| == |cards| && k <= |cards|
  {
  }

  lemma {:induction false} NumberableFrom(cards: seq<Card>, s: State, st: State, last: Last, k: nat)
    requires Tracks(cards, s, st, last, k) && Exhausted(last, st.recorded)
    ensures Numberable(cards, st, last, k)
       <==> forall i :: k <= i < |cards| && cards[i].network ==> HasRoom(cards, s, i)
    decreases |cards| - k
  {
    hide Tracked, Tracks, HandedOut, HasRoom, Exhausted, NumberStep, Fresh;
    assert k <= |st.names| == |s.names| == |cards| by { TracksLengths(cards, s, st, last, k); }
    if k < |cards| {
      if cards[k].network { LoopEndsIff(cards, s, st, last, k); }
      if Steady(cards, st, last, k) {
        TracksStep(cards, s, st, last, k);
        StepKeepsExhausted(cards, st, last, k);
        var next := NumberStep(cards, st, last, k);
        NumberableFrom(cards, s, next.0, next.1, k + 1);
      }
    }
  }

  // Exactly when pass 4 ends, from its start state.
  lemma NumberableIff(cards: seq<Card>, s: State)
    requires |s.names| == |cards|
    ensures Numberable(cards, s, FIRST, 0)
       <==> forall i :: 0 <= i < |cards| && cards[i].network ==> HasRoom(cards, s, i)
  {
    hide Tracks, Numberable, HasRoom, Exhausted;
    TracksStart(cards, s);
    NothingIsExhausted(s.recorded);
    NumberableFrom(cards, s, s, FIRST, 0);
  }

  lemma PassFourTracks(cards: seq<Card>, s: State)
    requires Unique(cards, s) && Numberable(cards, s, FIRST, 0)
    ensures var r := ByNumber(cards, s, FIRST, 0);
            Tracks(cards, s, r, Counters(cards, s, |cards|), |cards|) && Unique(cards, r)
  {
    hide Tracks, Unique, Numberable, Exhausted, Counters;
    UniqueLength(cards, s);
    NothingIsExhausted(s.recorded);
    TracksStart(cards, s);
    NumberingTracks(cards, s, s, FIRST, 0);
  }

  lemma UniqueLength(cards: seq<Card>, s: State)
    requires Unique(cards, s)
    ensures |s.names| == |cards|
  {
  }

  // ------------------------------------------------------------------- results

  // All network devices have different names, none of them generic.
  ghost predicate Complete(cards: seq<Card>, st: State) {
    && |st.names| == |cards|
    && (forall i :: 0 <= i < |cards| && cards[i].network ==> !Bare(st.names[i]))
    && forall i, j :: 0 <= i < j < |cards| && cards[i].network && cards[j].network ==> st.names[i] != st.names[j]
  }

  // What completeness needs of the state before pass 4: of the network devices that take no
  // number, none has a name that is handed out after its turn, and no two have the same.
  ghost predicate Completable(cards: seq<Card>, s: State) {
    && |s.names| == |cards|
    && (forall i {:trigger TakesAt(cards, s, i)} :: 0 <= i < |cards| && cards[i].network && !TakesAt(cards, s, i) ==>
          !HandedOut(Counters(cards, s, |cards|), s.recorded, s.names[i]))
    && forall i, j {:trigger TakesAt(cards, s, i), TakesAt(cards, s, j)} ::
         (0 <= i < j < |cards| && cards[i].network && cards[j].network
          && !TakesAt(cards, s, i) && !TakesAt(cards, s, j)) ==> s.names[i] != s.names[j]
  }

  // Exactly when pass 4 leaves all network devices with different names of their own.
  lemma NumberingIsCompleteIff(cards: seq<Card>, s: State)
    requires Unique(cards, s) && Numberable(cards, s, FIRST, 0)
    ensures Complete(cards, ByNumber(cards, s, FIRST, 0)) <==> Completable(cards, s)
  {
    var r, last := ByNumber(cards, s, FIRST, 0), Counters(cards, s, |cards|);
    PassFourTracks(cards, s);
    CompleteNeeds(cards, s, r, last);
    CompletableSuffices(cards, s, r, last);
  }

  // And exactly when all the passes do.
  lemma MatchingIsCompleteIff(cards: seq<Card>, confs: seq<Conf>, names: seq<string>)
    requires |names| == |cards| && Numberable(cards, Configured(cards, confs, names), FIRST, 0)
    ensures Complete(cards, MatchNet(cards, confs, names)) <==> Completable(cards, Configured(cards, confs, names))
  {
    hide Unique, Completable, Complete, Numberable, ByNumber, Configured;
    ConfiguredIsUnique(cards, confs, names);
    NumberingIsCompleteIff(cards, Configured(cards, confs, names));
  }

  lemma CompleteNeeds(cards: seq<Card>, s: State, r: State, last: Last)
    requires Tracks(cards, s, r, last, |cards|)
    ensures Complete(cards, r) ==> Completable(cards, s)
  {
    hide HandedOut, Counters, TakesAt;
    if Complete(cards, r) {
      forall i | 0 <= i < |cards| && cards[i].network && !TakesAt(cards, s, i)
        ensures r.names[i] == s.names[i] && !HandedOut(last, s.recorded, s.names[i])
      {
        assert Tracked(cards, s, r, last, |cards|, i);
      }
    }
  }

  lemma CompletableSuffices(cards: seq<Card>, s: State, r: State, last: Last)
    requires Tracks(cards, s, r, last, |cards|) && Unique(cards, r)
    ensures Completable(cards, s) ==> Complete(cards, r)
  {
    hide HandedOut, Counters;
    if Completable(cards, s) {
      forall i | 0 <= i < |cards| && cards[i].network
        ensures !Bare(r.names[i]) && (TakesAt(cards, s, i) ==> r.names[i] in r.recorded)
        ensures !TakesAt(cards, s, i) ==> r.names[i] == s.names[i]
      {
        assert Tracked(cards, s, r, last, |cards|, i);
      }
    }
  }

  // ------------------------------------------------------------- all passes

  ghost predicate GenericOrRecorded(cards: seq<Card>, st: State) {
    |st.names| == |cards| &&
    forall k :: 0 <= k < |cards| && cards[k].network ==> Bare(st.names[k]) || st.names[k] in st.recorded
  }

  lemma TakeKeepsGenericOrRecorded(cards: seq<Card>, st: State, i: nat, name: string)
    requires GenericOrRecorded(cards, st) && i < |cards|
    ensures GenericOrRecorded(cards, Take(cards, st, i, name))
  {
    assert Take(cards, st, i, name).recorded[|st.recorded|] == name;
  }

  lemma {:induction false} AddressOneKeeps(cards: seq<Card>, confs: seq<Conf>, st: State, i: nat, j: nat)
    requires GenericOrRecorded(cards, st) && i < |cards| && j <= |confs| && cards[i].hwaddr.Some?
    ensures GenericOrRecorded(cards, ByAddressOne(cards, confs, st, i, j))
    decreases |confs| - j
  {
    if j < |confs| {
      var hit := SameIgnoringCase(cards[i].hwaddr.value, confs[j].hwaddr) && st.names[i] != confs[j].dev;
      if hit { TakeKeepsGenericOrRecorded(cards, st, i, confs[j].dev); }
      AddressOneKeeps(cards, confs, if hit then Take(cards, st, i, confs[j].dev) else st, i, j + 1);
    }
  }

  lemma {:induction false} AddressKeeps(cards: seq<Card>, confs: seq<Conf>, st: State, i: nat)
    requires GenericOrRecorded(cards, st) && i <= |cards|
    ensures GenericOrRecorded(cards, ByAddress(cards, confs, st, i))
    decreases |cards| - i
  {
    if i < |cards| {
      if cards[i].network && cards[i].hwaddr.Some? {
        AddressOneKeeps(cards, confs, st, i, 0);
        AddressKeeps(cards, confs, ByAddressOne(cards, confs, st, i, 0), i + 1);
      } else {
        AddressKeeps(cards, confs, st, i + 1);
      }
    }
  }

  lemma {:induction false} DriverOneKeeps(cards: seq<Card>, confs: seq<Conf>, st: State, i: nat, j: nat)
    requires GenericOrRecorded(cards, st) && i < |cards| && j <= |confs|
    ensures GenericOrRecorded(cards, ByDriverOne(cards, confs, st, i, j))
    decreases |confs| - j
  {
    if j < |confs| {
      if cards[i].driver == Some(confs[j].driver) && confs[j].dev !in st.recorded {
        TakeKeepsGenericOrRecorded(cards, st, i, confs[j].dev);
      } else {
        DriverOneKeeps(cards, confs, st, i, j + 1);
      }
    }
  }

  lemma {:induction false} DriverKeeps(cards: seq<Card>, confs: seq<Conf>, st: State, i: nat)
    requires GenericOrRecorded(cards, st) && i <= |cards|
    ensures GenericOrRecorded(cards, ByDriver(cards, confs, st, i))
    decreases |cards| - i
  {
    if i < |cards| {
      if cards[i].network {
        DriverOneKeeps(cards, confs, st, i, 0);
        DriverKeeps(cards, confs, ByDriverOne(cards, confs, st, i, 0), i + 1);
      } else {
        DriverKeeps(cards, confs, st, i + 1);
      }
    }
  }

  lemma GenericOrRecordedIsCompletable(cards: seq<Card>, s: State)
    requires Unique(cards, s) && GenericOrRecorded(cards, s)
    ensures Completable(cards, s)
  {
    hide Counters;
  }

  // If every network device starts with a generic name, then whatever the configurations,
  // all end with different names, none of them generic.
  lemma GenericNamesAreCompleted(cards: seq<Card>, confs: seq<Conf>, names: seq<string>)
    requires |names| == |cards| && forall i :: 0 <= i < |cards| && cards[i].network ==> Bare(names[i])
    requires Numberable(cards, Configured(cards, confs, names), FIRST, 0)
    ensures Complete(cards, MatchNet(cards, confs, names))
  {
    hide Unique, Completable, Complete, Numberable, ByNumber;
    var st0, st := State(names, []), Configured(cards, confs, names);
    AddressKeeps(cards, confs, st0, 0);
    DriverKeeps(cards, confs, ByAddress(cards, confs, st0, 0), 0);
    ConfiguredIsUnique(cards, confs, names);
    GenericOrRecordedIsCompletable(cards, st);
    NumberingIsCompleteIff(cards, st);
  }

  // ----------------------------------------------------- who keeps which name

  lemma {:induction false} CountersGrow(cards: seq<Card>, s: State, i: nat, j: nat, p: string)
    requires i <= j <= |s.names| == |cards|
    ensures LastOf(Counters(cards, s, i), p) <= LastOf(Counters(cards, s, j), p)
    decreases j
  {
    hide HandedOut, Free, Counters;
    if i < j {
      CounterStep(cards, s, j - 1, p);
      CountersGrow(cards, s, i, j - 1, p);
    }
  }

  lemma CounterStep(cards: seq<Card>, s: State, i: nat, p: string)
    requires i < |s.names| == |cards|
    ensures LastOf(Counters(cards, s, i), p) <= LastOf(Counters(cards, s, i + 1), p)
  {
    hide HandedOut, Free;
  }

  lemma HandedOutStays(cards: seq<Card>, s: State, i: nat, name: string)
    requires i <= |s.names| == |cards| && HandedOut(Counters(cards, s, i), s.recorded, name)
    ensures HandedOut(Counters(cards, s, |cards|), s.recorded, name)
  {
    hide Counters;
    var p, n :| Bare(p) && 0 <= n < LastOf(Counters(cards, s, i), p) && name == Numbered(p, n);
    CountersGrow(cards, s, i, |cards|, p);
  }

  // A network device with a name of its own keeps it in pass 4 exactly when pass 4 hands
  // that name out to nobody.
  lemma NumberingKeepsIff(cards: seq<Card>, s: State, i: nat)
    requires Unique(cards, s) && Numberable(cards, s, FIRST, 0)
    requires i < |cards| && cards[i].network && !Bare(s.names[i])
    ensures ByNumber(cards, s, FIRST, 0).names[i] == s.names[i]
       <==> !HandedOut(Counters(cards, s, |cards|), s.recorded, s.names[i])
  {
    hide HandedOut, Counters, Numberable;
    var r, last := ByNumber(cards, s, FIRST, 0), Counters(cards, s, |cards|);
    PassFourTracks(cards, s);
    assert Tracked(cards, s, r, last, |cards|, i);
    if TakesAt(cards, s, i) { HandedOutStays(cards, s, i, s.names[i]); }
  }

  // The name every network device has after pass 4.
  lemma PassFourNames(cards: seq<Card>, s: State, i: nat)
    requires Unique(cards, s) && Numberable(cards, s, FIRST, 0) && i < |cards| && cards[i].network
    ensures ByNumber(cards, s, FIRST, 0).names[i]
         == if TakesAt(cards, s, i) then NumberAt(cards, s, i)
            else Now(Counters(cards, s, |cards|), s.recorded, s.names[i])
    ensures TakesAt(cards, s, i) ==> NumberAt(cards, s, i) !in s.recorded
  {
    hide Unique, Numberable, Counters, HandedOut, TakesAt, NumberAt;
    PassFourTracks(cards, s);
    assert Tracked(cards, s, ByNumber(cards, s, FIRST, 0), Counters(cards, s, |cards|), |cards|, i);
  }
}
