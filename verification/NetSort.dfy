// Regrouping the network devices of a list by driver, by relinking `next`.
module NetSort {
  import opened Common
  import opened Devices

  // Both drivers are known and equal.
  predicate Same(a: Device, b: Device) {
    a.info.driver.Some? && b.info.driver.Some? && a.info.driver == b.info.driver
  }

  // ------------------------------------------------------------ specification

  // The first index from i on whose device is (net) or is not (!net) a network device.
  function Skip(w: seq<Device>, i: nat, net: bool): (j: nat)
    requires i <= |w|
    ensures i <= j <= |w|
    ensures forall k :: i <= k < j ==> w[k].IsNetwork() != net
    ensures j < |w| ==> w[j].IsNetwork() == net
    decreases |w| - i
  {
    if i == |w| || w[i].IsNetwork() == net then i else Skip(w, i + 1, net)
  }

  // Element t is taken out and put right after element c.
  function Move(w: seq<Device>, c: nat, t: nat): seq<Device>
    requires c < t < |w|
  {
    w[..c + 1] + [w[t]] + w[c + 1..t] + w[t + 1..]
  }

  // The inner loop: from t to the end e of the network segment, every device with the
  // driver of w[c] moves behind w[c], becomes the new w[c], and the scan restarts there.
  function Pull(w: seq<Device>, c: nat, t: nat, e: nat): (r: (seq<Device>, nat))
    requires c < t && c < e <= |w|
    ensures |r.0| == |w| && c <= r.1 < e
    decreases e - c, e - t
  {
    if t >= e then (w, c)
    else if Same(w[c], w[t]) then Pull(Move(w, c, t), c + 1, c + 2, e)
    else Pull(w, c, t + 1, e)
  }

  // The outer loop. The device right after w[c] is not looked at, at first.
  function Group(w: seq<Device>, c: nat, e: nat): (r: seq<Device>)
    requires c < e <= |w|
    ensures |r| == |w|
    decreases e - c
  {
    if c + 1 == e then w
    else
      var (v, d) := Pull(w, c, c + 2, e);
      if d + 1 == e then v else Group(v, d + 1, e)
  }

  function Sorted(w: seq<Device>): seq<Device> {
    var a := Skip(w, 0, true);
    if a == |w| then w else Group(w, a, Skip(w, a, false))
  }

  // -------------------------------------------------------------- the program

  lemma MoveFacts(w: seq<Device>, c: nat, t: nat)
    requires c < t < |w|
    ensures |Move(w, c, t)| == |w|
    ensures forall k :: 0 <= k < |w| ==>
      Move(w, c, t)[k] == if k <= c || t < k then w[k] else if k == c + 1 then w[t] else w[k - 1]
    ensures forall d :: d in Move(w, c, t) ==> d in w
    ensures Distinct(w) ==> Distinct(Move(w, c, t))
  {
  }

  // The three assignments of a match.
  method Relink(cur: Device, next: Device, tmp: Device,
                ghost w: seq<Device>, ghost c: nat, ghost t: nat, ghost head: Device?, ghost v: seq<Device>)
    requires c < t < |w| && Distinct(w) && Chain(w, head)
    requires cur == w[c] && next == w[t - 1] && tmp == w[t] && v == Move(w, c, t)
    modifies cur, next, tmp
    ensures Chain(v, head) && Distinct(v) && v[c + 1] == tmp && cur.next == tmp
  {
    MoveFacts(w, c, t);
    ghost var after := w[c + 1];
    assert tmp.next == At(w, t + 1) && cur.next == after;
    next.next := tmp.next;
    tmp.next := cur.next;
    cur.next := tmp;
    if t == c + 1 {
      assert v == w;
      forall k | 0 <= k < |w| ensures w[k].next == At(w, k + 1) {
        assert k != c ==> w[k] != w[c];
        assert k != t ==> w[k] != w[t];
      }
    } else {
      assert w[c] != w[t - 1] && w[c] != w[t] && w[t - 1] != w[t];
      forall k | 0 <= k < |w| && k != c && k != t - 1 && k != t ensures w[k].next == At(w, k + 1) {
        assert w[k] != w[c] && w[k] != w[t - 1] && w[k] != w[t];
      }
      MovedChain(w, c, t, head);
    }
  }

  // The links a match leaves, seen along the old order, are those of the new order.
  lemma MovedChain(w: seq<Device>, c: nat, t: nat, head: Device?)
    requires c + 1 < t < |w| && head == w[0]
    requires w[c].next == w[t] && w[t].next == w[c + 1] && w[t - 1].next == At(w, t + 1)
    requires forall k :: 0 <= k < |w| && k != c && k != t - 1 && k != t ==> w[k].next == At(w, k + 1)
    ensures Chain(Move(w, c, t), head)
  {
    MoveFacts(w, c, t);
    var v := Move(w, c, t);
    hide Move;
    forall k | 0 <= k < |v| ensures v[k].next == At(v, k + 1) {
      if k < c || t < k {
        assert v[k] == w[k] && (k + 1 < |w| ==> v[k + 1] == w[k + 1]);
      } else if k == c {
        assert v[k] == w[c] && v[k + 1] == w[t];
      } else if k == c + 1 {
        assert v[k] == w[t] && v[k + 1] == w[c + 1];
      } else {
        assert v[k] == w[k - 1] && (k < t ==> v[k + 1] == w[k]) && (k == t && k + 1 < |w| ==> v[k + 1] == w[k + 1]);
      }
    }
  }

  // The end of the network segment around position c.
  ghost predicate Segment(w: seq<Device>, c: nat, e: nat) {
    c < e <= |w| && (forall k :: c <= k < e ==> w[k].IsNetwork()) && (e < |w| ==> !w[e].IsNetwork())
  }

  // The list in its present order, with its network segment c .. e.
  ghost predicate Listed(w: seq<Device>, head: Device?, nodes: set<Device>, c: nat, e: nat)
    reads w
  {
    Chain(w, head) && Distinct(w) && AllIn(w, nodes) && Segment(w, c, e)
  }

  lemma SegmentMoves(w: seq<Device>, c: nat, t: nat, e: nat, nodes: set<Device>, v: seq<Device>)
    requires Segment(w, c, e) && c < t < e && AllIn(w, nodes) && v == Move(w, c, t)
    ensures Segment(v, c + 1, e) && AllIn(v, nodes)
  {
    MoveFacts(w, c, t);
  }

  // The body of the inner loop.
  method PullOne(cur: Device, next: Device, tmp: Device, modulename: Option<string>,
                 ghost w: seq<Device>, ghost c: nat, ghost t: nat, ghost e: nat, ghost head: Device?,
                 ghost nodes: set<Device>)
    returns (newCur: Device, ghost v: seq<Device>, ghost d: nat, ghost u: nat)
    requires Listed(w, head, nodes, c, e) && c < t < e && modulename == cur.info.driver
    requires cur == w[c] && next == w[t - 1] && tmp == w[t]
    modifies nodes
    ensures if Same(cur, tmp) then v == Move(w, c, t) && d == c + 1 && u == d else v == w && d == c && u == t
    ensures Listed(v, head, nodes, d, e) && newCur == v[d] && tmp == v[u]
    ensures newCur.info.driver == modulename
  {
    newCur, v, d, u := cur, w, c, t;
    if tmp.info.driver.Some? && modulename.Some? && tmp.info.driver == modulename {
      v := Move(w, c, t);
      assert w[c] in nodes && w[t - 1] in nodes && w[t] in nodes;
      SegmentMoves(w, c, t, e, nodes, v);
      Relink(cur, next, tmp, w, c, t, head, v);
      d, u := c + 1, c + 1;
      newCur := cur.next;
    }
  }

  // The inner loop of sortNetDevices.
  method PullInPlace(first: Device, ghost w: seq<Device>, ghost c: nat, ghost e: nat, ghost head: Device?,
                     ghost nodes: set<Device>)
    returns (cur: Device, ghost v: seq<Device>, ghost d: nat)
    requires Listed(w, head, nodes, c, e) && c + 1 < e && first == w[c]
    modifies nodes
    ensures (v, d) == Pull(w, c, c + 2, e)
    ensures Listed(v, head, nodes, d, e) && cur == v[d]
  {
    cur, v, d := first, w, c;
    var modulename := cur.info.driver;
    var next := cur.next;
    var tmp := next.next;
    ghost var t: nat := c + 2;
    while tmp != null && tmp.IsNetwork()
      invariant Listed(v, head, nodes, d, e) && d < t <= e
      invariant cur == v[d] && next == v[t - 1] && tmp == At(v, t) && modulename == cur.info.driver
      invariant Pull(w, c, c + 2, e) == Pull(v, d, t, e)
      decreases e - d, e - t
    {
      cur, v, d, t := PullOne(cur, next, tmp, modulename, v, d, t, e, head, nodes);
      assert v[t].next == At(v, t + 1);
      next := tmp;
      tmp := next.next;
      t := t + 1;
    }
  }

  // The second loop of sortNetDevices.
  method GroupInPlace(first: Device, ghost w: seq<Device>, ghost a: nat, ghost e: nat, ghost head: Device?,
                      ghost nodes: set<Device>)
    requires Listed(w, head, nodes, a, e) && first == w[a]
    modifies nodes
    ensures Chain(Group(w, a, e), head)
  {
    var cur: Device? := first;
    ghost var v, c := w, a;
    while cur != null && cur.IsNetwork()
      invariant c <= e <= |v| && cur == At(v, c) && Chain(v, head) && (e < |v| ==> !v[e].IsNetwork())
      invariant c < e ==> Listed(v, head, nodes, c, e)
      invariant Group(w, a, e) == if c < e then Group(v, c, e) else v
      decreases e - c
    {
      assert c < e;
      var next := cur.next;
      if next == null || !next.IsNetwork() {
        assert c + 1 == e;
        return;
      }
      assert next == v[c + 1] && c + 1 < e;
      ghost var d;
      cur, v, d := PullInPlace(cur, v, c, e, head, nodes);
      assert v[d].next == At(v, d + 1);
      cur := cur.next;
      c := d + 1;
      assert c < e ==> Segment(v, c, e);
    }
  }

  // sortNetDevices.
  method SortNetDevices(devs: Device?, ghost w: seq<Device>)
    requires Chain(w, devs) && Distinct(w)
    modifies w
    ensures Chain(Sorted(w), devs)
  {
    var cur := devs;
    ghost var c := 0;
    while cur != null && !cur.IsNetwork()
      invariant c <= |w| && cur == At(w, c) && Skip(w, 0, true) == Skip(w, c, true)
      decreases |w| - c
    {
      cur := cur.next;
      c := c + 1;
    }
    if cur != null {
      ghost var e := Skip(w, c, false);
      assert Segment(w, c, e);
      GroupInPlace(cur, w, c, e, devs, set x | x in w);
    }
  }
}
