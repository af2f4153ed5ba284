// The exact order that sortNetDevices leaves, in terms of the run alone.
module NetSortOrder {
  import opened Devices
  import opened NetSort

  // Two devices with one known driver.
  predicate OneDriver(f: Device, g: Device) { f.info.driver.Some? && f.info.driver == g.info.driver }

  lemma SameIs(f: Device, g: Device)
    ensures Same(f, g) <==> OneDriver(f, g)
  {
  }

  // The devices of s with the driver of f, in order, and the others.
  function Of(f: Device, s: seq<Device>): (r: seq<Device>)
    ensures |r| <= |s|
  {
    if s == [] then [] else (if OneDriver(f, s[0]) then [s[0]] else []) + Of(f, s[1..])
  }

  function NotOf(f: Device, s: seq<Device>): (r: seq<Device>)
    ensures |r| <= |s|
  {
    if s == [] then [] else (if OneDriver(f, s[0]) then [] else [s[0]]) + NotOf(f, s[1..])
  }

  // The neighbour n of f, if it has f's driver, and if it has not.
  function Picked(f: Device, n: Device): seq<Device> { if OneDriver(f, n) then [n] else [] }

  function Left(f: Device, n: Device): seq<Device> { if OneDriver(f, n) then [] else [n] }

  // The run u in its new order. If a device of the first one's driver comes later than its
  // neighbour, the first is followed by the earliest such device, then by the neighbour if it
  // has that driver, then by the others in list order; the rest is treated likewise. Without
  // such a device the first one stays, and the run goes on from its neighbour.
  function Regrouped(u: seq<Device>): seq<Device>
    decreases |u|
  {
    if |u| < 2 then u
    else
      var f, n, later, others := u[0], u[1], Of(u[0], u[2..]), NotOf(u[0], u[2..]);
      if later == [] then [f] + Regrouped(u[1..])
      else
        [f, later[0]] + Picked(f, n) + later[1..] + Regrouped(Left(f, n) + others)
  }

  lemma TailOfSum<T>(a: seq<T>, b: seq<T>)
    requires a != []
    ensures (a + b)[0] == a[0] && (a + b)[1..] == a[1..] + b
  {
  }

  lemma Associate<T>(x: T, a: seq<T>, b: seq<T>)
    ensures ([x] + a) + b == [x] + (a + b)
  {
  }

  lemma {:induction false} OfConcat(f: Device, a: seq<Device>, b: seq<Device>)
    ensures Of(f, a + b) == Of(f, a) + Of(f, b)
  {
    hide Of, NotOf, OneDriver;
    if a == [] {
      OfNone(f, a);
      assert a + b == b;
    } else {
      var s := a + b;
      TailOfSum(a, b);
      OfConcat(f, a[1..], b);
      OfStep(f, a);
      OfStep(f, s);
      Associate(a[0], Of(f, a[1..]), Of(f, b));
    }
  }

  lemma {:induction false} NotOfConcat(f: Device, a: seq<Device>, b: seq<Device>)
    ensures NotOf(f, a + b) == NotOf(f, a) + NotOf(f, b)
  {
    hide Of, NotOf, OneDriver;
    if a == [] {
      OfNone(f, a);
      assert a + b == b;
    } else {
      var s := a + b;
      TailOfSum(a, b);
      NotOfConcat(f, a[1..], b);
      OfStep(f, a);
      OfStep(f, s);
      Associate(a[0], NotOf(f, a[1..]), NotOf(f, b));
    }
  }

  lemma OfStep(f: Device, s: seq<Device>)
    requires s != []
    ensures Of(f, s) == if OneDriver(f, s[0]) then [s[0]] + Of(f, s[1..]) else Of(f, s[1..])
    ensures NotOf(f, s) == if OneDriver(f, s[0]) then NotOf(f, s[1..]) else [s[0]] + NotOf(f, s[1..])
  {
  }

  lemma {:induction false} OfNone(f: Device, s: seq<Device>)
    requires forall k :: 0 <= k < |s| ==> !OneDriver(f, s[k])
    ensures Of(f, s) == [] && NotOf(f, s) == s
  {
    if s != [] { OfNone(f, s[1..]); }
  }

  // Devices with one driver pick the same ones.
  lemma {:induction false} OfSame(f: Device, g: Device, s: seq<Device>)
    requires OneDriver(f, g)
    ensures Of(f, s) == Of(g, s) && NotOf(f, s) == NotOf(g, s)
  {
    if s != [] { OfSame(f, g, s[1..]); }
  }

  // What Move leaves, part by part.
  lemma MoveParts(w: seq<Device>, c: nat, t: nat, e: nat, v: seq<Device>)
    requires c < t < e <= |w| && v == Move(w, c, t)
    ensures |v| == |w| && v[c + 1] == w[t] && v[..c + 2] == w[..c + 1] + [w[t]]
    ensures v[c + 2..e] == w[c + 1..t] + w[t + 1..e] && v[e..] == w[e..]
  {
    MoveFacts(w, c, t);
    var a, b, m := w[..c + 1] + [w[t]], w[c + 1..t], w[t + 1..];
    assert v == a + b + m;
    Parts(a, b, m, e, v);
    assert m[..e - t - 1] == w[t + 1..e] && m[e - t - 1..] == w[e..];
  }

  lemma Parts<T>(a: seq<T>, b: seq<T>, m: seq<T>, e: nat, v: seq<T>)
    requires v == a + b + m && |a| + |b| <= e <= |v|
    ensures v[..|a|] == a && v[|a|..e] == b + m[..e - |a| - |b|] && v[e..] == m[e - |a| - |b|..]
  {
  }

  // What the inner loop does from a device t on: the devices of the driver come right behind
  // w[c], in order.
  predicate PullsRest(w: seq<Device>, c: nat, t: nat, e: nat)
    requires c < t <= e <= |w|
  {
    && Pull(w, c, t, e).0 == w[..c + 1] + Of(w[c], w[t..e]) + (w[c + 1..t] + NotOf(w[c], w[t..e])) + w[e..]
    && Pull(w, c, t, e).1 == c + |Of(w[c], w[t..e])|
  }

  lemma {:induction false} PullRest(w: seq<Device>, c: nat, t: nat, e: nat)
    requires c < t <= e <= |w| && forall k :: c < k < t ==> !OneDriver(w[c], w[k])
    ensures PullsRest(w, c, t, e)
    decreases e - c, e - t
  {
    hide PullsRest, OneDriver, Pull, Move;
    if t == e {
      PullEnds(w, c, e);
    } else if OneDriver(w[c], w[t]) {
      var v := Move(w, c, t);
      MoveParts(w, c, t, e, v);
      PullRest(v, c + 1, c + 2, e);
      PullTakes(w, c, t, e, v);
    } else {
      PullRest(w, c, t + 1, e);
      PullSkips(w, c, t, e);
    }
  }

  lemma PullEnds(w: seq<Device>, c: nat, e: nat)
    requires c < e <= |w|
    ensures PullsRest(w, c, e, e)
  {
    hide Of, NotOf, OneDriver;
    OfNone(w[c], []);
    assert w[..c + 1] + [] + (w[c + 1..e] + []) + w[e..] == w;
  }

  lemma PullTakes(w: seq<Device>, c: nat, t: nat, e: nat, v: seq<Device>)
    requires c < t < e <= |w| && OneDriver(w[c], w[t]) && forall k :: c < k < t ==> !OneDriver(w[c], w[k])
    requires v == Move(w, c, t) && |v| == |w| && PullsRest(v, c + 1, c + 2, e)
    ensures PullsRest(w, c, t, e)
  {
    hide Of, NotOf, Move, Same, OneDriver, Pull;
    var f, x, mid, more := w[c], w[t], w[c + 1..t], w[t + 1..e];
    PullStep(w, c, t, e);
    SameIs(f, x);
    assert w[t..e][0] == x && w[t..e][1..] == more;
    OfStep(f, w[t..e]);
    MoveParts(w, c, t, e, v);
    PickedFrom(f, x, mid, more, v[c + 2..e]);
    assert v[c + 2..c + 2] == [];
    Behind(w[..c + 1], x, Of(f, more), mid + NotOf(f, more), w[e..]);
  }

  lemma PullSkips(w: seq<Device>, c: nat, t: nat, e: nat)
    requires c < t < e <= |w| && !OneDriver(w[c], w[t]) && PullsRest(w, c, t + 1, e)
    ensures PullsRest(w, c, t, e)
  {
    hide Of, NotOf, Same, OneDriver, Pull;
    var f, x, mid, more := w[c], w[t], w[c + 1..t], w[t + 1..e];
    PullStep(w, c, t, e);
    SameIs(f, x);
    assert w[t..e][0] == x && w[t..e][1..] == more;
    OfStep(f, w[t..e]);
    assert w[c + 1..t + 1] == mid + [x];
    Regroup(mid, x, NotOf(f, more));
  }

  lemma PullStep(w: seq<Device>, c: nat, t: nat, e: nat)
    requires c < t <= e <= |w|
    ensures t == e ==> Pull(w, c, t, e) == (w, c)
    ensures t < e && Same(w[c], w[t]) ==> Pull(w, c, t, e) == Pull(Move(w, c, t), c + 1, c + 2, e)
    ensures t < e && !Same(w[c], w[t]) ==> Pull(w, c, t, e) == Pull(w, c, t + 1, e)
  {
  }

  lemma Behind<T>(pre: seq<T>, x: T, a: seq<T>, b: seq<T>, post: seq<T>)
    ensures (pre + [x]) + a + ([] + b) + post == pre + ([x] + a) + b + post
  {
  }

  lemma Regroup<T>(a: seq<T>, x: T, b: seq<T>)
    ensures (a + [x]) + b == a + ([x] + b)
  {
  }

  // What the device x picks from what follows it, if it picks nothing from mid.
  lemma PickedFrom(f: Device, x: Device, mid: seq<Device>, more: seq<Device>, s: seq<Device>)
    requires OneDriver(f, x) && s == mid + more && forall k :: 0 <= k < |mid| ==> !OneDriver(f, mid[k])
    ensures Of(x, s) == Of(f, more) && NotOf(x, s) == mid + NotOf(f, more)
  {
    OfSame(f, x, s);
    OfConcat(f, mid, more);
    NotOfConcat(f, mid, more);
    OfNone(f, mid);
  }

  // The inner loop as it starts, the neighbour of w[c] left out.
  lemma {:induction false} PullFirst(w: seq<Device>, c: nat, t: nat, e: nat)
    requires c + 2 <= t <= e <= |w| && forall k :: c + 2 <= k < t ==> !OneDriver(w[c], w[k])
    ensures Of(w[c], w[t..e]) == [] ==> Pull(w, c, t, e) == (w, c)
    ensures Of(w[c], w[t..e]) != [] ==>
      var f, n, later := w[c], w[c + 1], Of(w[c], w[t..e]);
      && Pull(w, c, t, e).0
      == w[..c + 1] + ([later[0]] + Picked(f, n) + later[1..])
         + (Left(f, n) + w[c + 2..t] + NotOf(f, w[t..e])) + w[e..]
      && Pull(w, c, t, e).1 == c + |later| + |Picked(f, n)|
    decreases e - t
  {
    hide Of, NotOf, Move, Picked, Left, Same, OneDriver;
    if t == e {
      OfNone(w[c], w[t..e]);
    } else {
      var f, n, s, mid, more := w[c], w[c + 1], w[t..e], w[c + 2..t], w[t + 1..e];
      assert s[0] == w[t] && s[1..] == more;
      OfStep(f, s);
      SameIs(f, w[t]);
      if OneDriver(f, w[t]) {
        PullsFirst(w, c, t, e);
      } else {
        PullFirst(w, c, t + 1, e);
        assert w[c + 2..t + 1] == mid + [w[t]];
        assert Left(f, n) + (mid + [w[t]]) + NotOf(f, more) == Left(f, n) + mid + ([w[t]] + NotOf(f, more));
      }
    }
  }

  lemma PullsFirst(w: seq<Device>, c: nat, t: nat, e: nat)
    requires c + 2 <= t < e <= |w| && OneDriver(w[c], w[t]) && forall k :: c + 2 <= k < t ==> !OneDriver(w[c], w[k])
    ensures var f, n, more := w[c], w[c + 1], w[t + 1..e];
      && Pull(w, c, t, e).0
      == w[..c + 1] + ([w[t]] + Picked(f, n) + Of(f, more)) + (Left(f, n) + w[c + 2..t] + NotOf(f, more)) + w[e..]
      && Pull(w, c, t, e).1 == c + 1 + |Picked(f, n)| + |Of(f, more)|
  {
    hide Of, NotOf, Move, Picked, Left, Same, OneDriver;
    SameIs(w[c], w[t]);
    var f, n, x, pre, mid, more, post := w[c], w[c + 1], w[t], w[..c + 1], w[c + 2..t], w[t + 1..e], w[e..];
    var v := Move(w, c, t);
    MoveParts(w, c, t, e, v);
    PullRest(v, c + 1, c + 2, e);
    assert w[c + 1..t] == [n] + mid;
    assert v[c + 2..e] == [n] + (mid + more);
    PickedWithNeighbour(f, x, n, mid, more, v[c + 2..e]);
    assert v[c + 2..c + 2] == [];
    var a, b := Picked(f, n) + Of(f, more), Left(f, n) + mid + NotOf(f, more);
    assert (pre + [x]) + a + ([] + b) + post == pre + ([x] + Picked(f, n) + Of(f, more)) + b + post;
  }

  lemma PickedWithNeighbour(f: Device, x: Device, n: Device, mid: seq<Device>, more: seq<Device>, s: seq<Device>)
    requires OneDriver(f, x) && s == [n] + (mid + more) && forall k :: 0 <= k < |mid| ==> !OneDriver(f, mid[k])
    ensures Of(x, s) == Picked(f, n) + Of(f, more) && NotOf(x, s) == Left(f, n) + mid + NotOf(f, more)
  {
    hide Of, NotOf, Picked, Left, OneDriver;
    OfSame(f, x, s);
    assert Left(f, n) + (mid + NotOf(f, more)) == Left(f, n) + mid + NotOf(f, more);
    OfConcat(f, [n], mid + more);
    NotOfConcat(f, [n], mid + more);
    OfConcat(f, mid, more);
    NotOfConcat(f, mid, more);
    OfNone(f, mid);
    OfOne(f, n);
  }

  lemma OfOne(f: Device, n: Device)
    ensures Of(f, [n]) == Picked(f, n) && NotOf(f, [n]) == Left(f, n)
  {
    assert [n][1..] == [];
  }

  // The loops leave the run from c to e regrouped.
  lemma {:induction false} GroupIs(w: seq<Device>, c: nat, e: nat)
    requires c < e <= |w|
    ensures Group(w, c, e) == w[..c] + Regrouped(w[c..e]) + w[e..]
    decreases e - c
  {
    hide Of, NotOf, Pull, OneDriver;
    var u := w[c..e];
    if c + 1 == e {
      assert w == w[..c] + u + w[e..];
    } else {
      var f, n := w[c], w[c + 1];
      assert u[0] == f && u[1] == n && u[2..] == w[c + 2..e] && u[1..] == w[c + 1..e];
      PullFirst(w, c, c + 2, e);
      assert w[c + 2..c + 2] == [];
      if Of(f, u[2..]) == [] {
        GroupIs(w, c + 1, e);
        assert w[..c + 1] == w[..c] + [f];
        assert (w[..c] + [f]) + Regrouped(u[1..]) + w[e..] == w[..c] + ([f] + Regrouped(u[1..])) + w[e..];
      } else {
        GroupPulled(w, c, e);
      }
    }
  }

  lemma GroupPulled(w: seq<Device>, c: nat, e: nat)
    requires c + 2 <= e <= |w| && Of(w[c], w[c + 2..e]) != []
    ensures Group(w, c, e) == w[..c] + Regrouped(w[c..e]) + w[e..]
    decreases e - c, 0
  {
    hide Of, NotOf, Pull, Picked, Left, OneDriver, Regrouped, Group;
    var f, n, u := w[c], w[c + 1], w[c..e];
    var later, others := Of(f, u[2..]), NotOf(f, u[2..]);
    assert u[0] == f && u[1] == n && u[2..] == w[c + 2..e];
    PullFirst(w, c, c + 2, e);
    assert w[c + 2..c + 2] == [];
    var (v, d) := Pull(w, c, c + 2, e);
    var front, rest := [later[0]] + Picked(f, n) + later[1..], Left(f, n) + others;
    Cut(w, v, c, d, e, front, rest);
    GroupStep(w, c, e);
    RegroupedStep(u, later, others);
    if d + 1 < e {
      GroupIs(v, d + 1, e);
    } else {
      EmptyRun();
      assert v == v[..d + 1] + rest + v[e..];
    }
    Gather(w[..c], f, front, Regrouped(rest), w[e..]);
  }

  lemma GroupStep(w: seq<Device>, c: nat, e: nat)
    requires c + 1 < e <= |w|
    ensures var v, d := Pull(w, c, c + 2, e).0, Pull(w, c, c + 2, e).1;
            Group(w, c, e) == if d + 1 == e then v else Group(v, d + 1, e)
  {
  }

  lemma Gather<T>(pre: seq<T>, f: T, front: seq<T>, rest: seq<T>, post: seq<T>)
    ensures (pre + [f] + front) + rest + post == pre + ([f] + front + rest) + post
  {
  }

  lemma Cut(w: seq<Device>, v: seq<Device>, c: nat, d: nat, e: nat, front: seq<Device>, rest: seq<Device>)
    requires c < e <= |w| && |v| == |w| && v == w[..c + 1] + front + rest + w[e..] && d == c + |front|
    ensures d < e && v[..d + 1] == w[..c] + [w[c]] + front && v[d + 1..e] == rest && v[e..] == w[e..]
  {
  }

  lemma EmptyRun()
    ensures Regrouped([]) == []
  {
  }

  lemma RegroupedStep(u: seq<Device>, later: seq<Device>, others: seq<Device>)
    requires |u| >= 2 && later == Of(u[0], u[2..]) && others == NotOf(u[0], u[2..]) && later != []
    ensures Regrouped(u)
         == [u[0]] + ([later[0]] + Picked(u[0], u[1]) + later[1..]) + Regrouped(Left(u[0], u[1]) + others)
  {
  }

  // sortNetDevices regroups the first run of network devices and leaves all others.
  lemma SortedIs(w: seq<Device>, a: nat, e: nat)
    requires a <= e <= |w| && (forall k :: 0 <= k < a ==> w[k].info.cls != 2)
    requires (forall k :: a <= k < e ==> w[k].info.cls == 2) && (e < |w| ==> a < e && w[e].info.cls != 2)
    ensures Sorted(w) == w[..a] + Regrouped(w[a..e]) + w[e..]
  {
    hide Group, Regrouped;
    var b := Skip(w, 0, true);
    assert forall k :: 0 <= k < a ==> !w[k].IsNetwork();
    if a < |w| {
      assert w[a].IsNetwork() && a < e;
      assert forall k :: a <= k < e ==> w[k].IsNetwork();
      assert b == a;
      assert Skip(w, a, false) == e;
      GroupIs(w, a, e);
    } else {
      EmptyRun();
      assert w[..a] == w && w[a..e] == [];
    }
  }

  // ----------------------------------------------- what keeps its relative order

  // The devices that no device before them shares a driver with.
  function Heads(u: seq<Device>): seq<Device>
    decreases |u|
  {
    if u == [] then [] else [u[0]] + Heads(NotOf(u[0], u[1..]))
  }

  lemma {:induction false} OfMembers(f: Device, s: seq<Device>)
    ensures forall d :: d in Of(f, s) ==> d in s && OneDriver(f, d)
    ensures forall d :: d in NotOf(f, s) ==> d in s && !OneDriver(f, d)
  {
    if s != [] { OfMembers(f, s[1..]); }
  }

  lemma {:induction false} RegroupedMembers(u: seq<Device>)
    ensures forall d :: d in Regrouped(u) ==> d in u
    decreases |u|
  {
    hide Of, NotOf, OneDriver, Regrouped;
    if |u| < 2 {
      ShortRun(u);
    } else {
      var f, n, later, others := u[0], u[1], Of(u[0], u[2..]), NotOf(u[0], u[2..]);
      OfMembers(f, u[2..]);
      if later == [] {
        NothingMoves(u);
        RegroupedMembers(u[1..]);
      } else {
        var front, rest := [later[0]] + Picked(f, n) + later[1..], Left(f, n) + others;
        RegroupedStep(u, later, others);
        RegroupedMembers(rest);
        assert forall d :: d in front ==> d == n || d in later;
        assert forall d :: d in rest ==> d in u;
      }
    }
  }

  // A device picks nothing of a regrouped run that has nothing of its driver.
  lemma NonePicked(f: Device, u: seq<Device>)
    requires forall k :: 0 <= k < |u| ==> !OneDriver(f, u[k])
    ensures NotOf(f, u) == u && NotOf(f, Regrouped(u)) == Regrouped(u)
  {
    hide Regrouped, OneDriver;
    RegroupedMembers(u);
    OfNone(f, u);
    var r := Regrouped(u);
    forall k | 0 <= k < |r| ensures !OneDriver(f, r[k]) { assert r[k] in u; }
    OfNone(f, r);
  }

  lemma {:induction false} AllPicked(f: Device, s: seq<Device>)
    requires forall k :: 0 <= k < |s| ==> OneDriver(f, s[k])
    ensures NotOf(f, s) == []
  {
    if s != [] { AllPicked(f, s[1..]); }
  }

  // A run of f, some devices of its driver, and a regrouped rest without any.
  lemma HeadsOf(f: Device, p: seq<Device>, rest: seq<Device>, v: seq<Device>)
    requires v == [f] + (p + Regrouped(rest)) && forall k :: 0 <= k < |p| ==> OneDriver(f, p[k])
    requires forall k :: 0 <= k < |rest| ==> !OneDriver(f, rest[k])
    ensures Heads(v) == [f] + Heads(Regrouped(rest))
  {
    hide Regrouped, OneDriver, NotOf, Heads;
    HeadsStep(v);
    AllPicked(f, p);
    NonePicked(f, rest);
    NotOfConcat(f, p, Regrouped(rest));
    assert v[1..] == p + Regrouped(rest) && [] + Regrouped(rest) == Regrouped(rest);
  }

  // What the first device does not pick of the others, if the neighbour is set apart.
  lemma RestIs(f: Device, n: Device, s: seq<Device>)
    ensures NotOf(f, [n] + s) == Left(f, n) + NotOf(f, s)
    ensures forall d :: d in Left(f, n) + NotOf(f, s) ==> !OneDriver(f, d)
  {
    hide NotOf, Of;
    NotOfConcat(f, [n], s);
    OfOne(f, n);
    OfMembers(f, s);
  }

  // The first devices of all drivers, and the devices whose driver is not known, stay in order.
  lemma {:induction false} HeadsKeepOrder(u: seq<Device>)
    ensures Heads(Regrouped(u)) == Heads(u)
    decreases |u|
  {
    hide Of, NotOf, OneDriver, Regrouped, Heads;
    if |u| < 2 {
      ShortRun(u);
    } else {
      var f, n, s := u[0], u[1], u[2..];
      var later, others := Of(f, s), NotOf(f, s);
      assert u[1..] == [n] + s;
      RestIs(f, n, s);
      HeadsStep(u);
      if later == [] && OneDriver(f, n) {
        OfNothing(f, s);
        HeadsKeepOrder(s);
        NeighbourStays(u);
        HeadsOf(f, [n], s, Regrouped(u));
        assert [] + s == s;
      } else if later == [] {
        OfNothing(f, s);
        HeadsKeepOrder(u[1..]);
        NothingMoves(u);
        assert [f] + ([] + Regrouped(u[1..])) == Regrouped(u);
        HeadsOf(f, [], u[1..], Regrouped(u));
      } else {
        var rest, p := Left(f, n) + others, [later[0]] + Picked(f, n) + later[1..];
        HeadsKeepOrder(rest);
        RegroupedStep(u, later, others);
        OfMembers(f, s);
        assert [f] + p + Regrouped(rest) == [f] + (p + Regrouped(rest));
        HeadsOf(f, p, rest, Regrouped(u));
      }
    }
  }

  lemma ShortRun(u: seq<Device>)
    requires |u| < 2
    ensures Regrouped(u) == u
  {
  }

  lemma HeadsStep(u: seq<Device>)
    requires u != []
    ensures Heads(u) == [u[0]] + Heads(NotOf(u[0], u[1..]))
  {
  }

  lemma {:induction false} OfNothing(f: Device, s: seq<Device>)
    requires Of(f, s) == []
    ensures NotOf(f, s) == s && forall k :: 0 <= k < |s| ==> !OneDriver(f, s[k])
  {
    if s != [] { OfNothing(f, s[1..]); }
  }

  // Without a later device of its driver the first one stays, and what follows is the run
  // from its neighbour.
  lemma NothingMoves(u: seq<Device>)
    requires |u| >= 2 && Of(u[0], u[2..]) == []
    ensures Regrouped(u) == [u[0]] + Regrouped(u[1..])
  {
  }

  lemma NeighbourStays(u: seq<Device>)
    requires |u| >= 2 && Of(u[0], u[2..]) == [] && OneDriver(u[0], u[1])
    ensures Regrouped(u) == [u[0]] + ([u[1]] + Regrouped(u[2..]))
  {
    hide OneDriver, Of, Regrouped;
    NothingMoves(u);
    OfSame(u[0], u[1], u[2..]);
    if |u| == 2 {
      ShortRun(u[1..]);
      EmptyRun();
      assert u[1..] == [u[1]] && u[2..] == [];
    } else {
      OfNothing(u[1], u[2..]);
      OfNone(u[1], u[3..]);
      NothingMoves(u[1..]);
      assert u[1..][1..] == u[2..] && u[1..][2..] == u[3..];
    }
  }
}
