// What sortNetDevices promises: the first run of network devices is permuted so that
// devices with one driver stand together; its first device and all others stay put.
module NetSortTheory {
  import opened Devices
  import opened NetSort

  // Between a and e, all devices with one known driver are adjacent.
  ghost predicate Grouped(w: seq<Device>, a: nat, e: nat)
    requires e <= |w|
  {
    forall i, j, k :: a <= i < j < k < e && Same(w[i], w[k]) ==> Same(w[i], w[j])
  }

  // Every driver seen from a to c and again between c and e is the driver of w[c].
  ghost predicate Closed(w: seq<Device>, a: nat, c: nat, e: nat)
    requires c < e <= |w|
  {
    forall i, k :: a <= i <= c < k < e && Same(w[i], w[k]) ==> Same(w[i], w[c])
  }

  // What the loops keep: the part up to c is grouped, and closed towards the rest.
  ghost predicate Progress(w: seq<Device>, a: nat, c: nat, e: nat) {
    a <= c < e <= |w| && Grouped(w, a, c + 1) && Closed(w, a, c, e)
  }

  // v is w with the positions strictly between a and e permuted.
  ghost predicate Permuted(w: seq<Device>, v: seq<Device>, a: nat, e: nat)
    requires a < e <= |w|
  {
    && |v| == |w| && v[..a + 1] == w[..a + 1] && v[e..] == w[e..]
    && multiset(v) == multiset(w)
  }

  lemma PermutedTrans(u: seq<Device>, v: seq<Device>, w: seq<Device>, a: nat, c: nat, e: nat)
    requires a <= c < e <= |u| && Permuted(u, v, a, e) && Permuted(v, w, c, e)
    ensures Permuted(u, w, a, e)
  {
    assert w[..a + 1] == w[..c + 1][..a + 1] == v[..a + 1];
  }

  lemma MovePermutes(w: seq<Device>, c: nat, t: nat, e: nat, v: seq<Device>)
    requires c < t < e <= |w| && v == Move(w, c, t)
    ensures Permuted(w, v, c, e)
  {
    MoveFacts(w, c, t);
    assert w == w[..c + 1] + w[c + 1..t] + [w[t]] + w[t + 1..];
    assert v[..c + 1] == w[..c + 1];
    forall k | 0 <= k < |w| - e ensures v[e..][k] == w[e..][k] {}
  }

  lemma MoveKeepsProgress(w: seq<Device>, a: nat, c: nat, t: nat, e: nat, v: seq<Device>)
    requires Progress(w, a, c, e) && c < t < e && Same(w[c], w[t]) && v == Move(w, c, t)
    ensures Progress(v, a, c + 1, e)
  {
    MoveFacts(w, c, t);
    assert v[c] == w[c] && v[c + 1] == w[t];
    forall i, j, k | a <= i < j < k < c + 2 && Same(v[i], v[k]) ensures Same(v[i], v[j]) {
      assert v[i] == w[i] && v[j] == w[j];
      if k == c + 1 && j < c { assert Same(w[i], w[c]) && Same(w[i], w[j]); }
    }
    forall i, k | a <= i <= c + 1 < k < e && Same(v[i], v[k]) ensures Same(v[i], v[c + 1]) {
      var m := if t < k then k else k - 1;
      assert v[k] == w[m];
      if i <= c { assert v[i] == w[i] && Same(w[i], w[m]) && Same(w[i], w[c]); }
    }
  }

  // No device between lo and hi has the driver of w[c].
  ghost predicate NoneBetween(w: seq<Device>, c: nat, lo: nat, hi: nat) {
    c < |w| && hi <= |w| && forall k :: lo <= k < hi ==> !Same(w[c], w[k])
  }

  lemma {:induction false} PullPermutes(w: seq<Device>, c: nat, t: nat, e: nat)
    requires c < t && c < e <= |w|
    ensures Permuted(w, Pull(w, c, t, e).0, c, e)
    decreases e - c, e - t
  {
    if t < e {
      if Same(w[c], w[t]) {
        var v := Move(w, c, t);
        MovePermutes(w, c, t, e, v);
        PullPermutes(v, c + 1, c + 2, e);
        PermutedTrans(w, v, Pull(v, c + 1, c + 2, e).0, c, c + 1, e);
      } else {
        PullPermutes(w, c, t + 1, e);
      }
    }
  }

  // The inner loop keeps Progress and leaves no device with the current driver after
  // the one right behind w[c].
  lemma {:induction false} PullKeeps(w: seq<Device>, a: nat, c: nat, t: nat, e: nat)
    requires Progress(w, a, c, e) && c < t && NoneBetween(w, c, c + 2, if t < e then t else e)
    ensures var (v, d) := Pull(w, c, t, e);
            Progress(v, a, d, e) && NoneBetween(v, d, d + 2, e)
    decreases e - c, e - t
  {
    hide Move, Grouped, Closed;
    if t < e {
      if Same(w[c], w[t]) {
        MoveKeepsProgress(w, a, c, t, e, Move(w, c, t));
        PullKeeps(Move(w, c, t), a, c + 1, c + 2, e);
      } else {
        PullKeeps(w, a, c, t + 1, e);
      }
    }
  }

  // The step of the outer loop from one driver to the next position.
  lemma Advance(w: seq<Device>, a: nat, d: nat, e: nat)
    requires Progress(w, a, d, e) && NoneBetween(w, d, d + 2, e) && d + 1 < e
    ensures Progress(w, a, d + 1, e)
  {
    forall i, j, k | a <= i < j < k < d + 2 && Same(w[i], w[k]) ensures Same(w[i], w[j]) {
      if k == d + 1 { assert Same(w[i], w[d]); }
    }
    forall i, k | a <= i <= d + 1 < k < e && Same(w[i], w[k]) ensures Same(w[i], w[d + 1]) {
      var gone := Same(w[d], w[k]);
    }
  }

  lemma {:induction false} GroupPermutes(w: seq<Device>, c: nat, e: nat)
    requires c < e <= |w|
    ensures Permuted(w, Group(w, c, e), c, e)
    decreases e - c
  {
    if c + 1 < e {
      PullPermutes(w, c, c + 2, e);
      var (v, d) := Pull(w, c, c + 2, e);
      if d + 1 < e {
        GroupPermutes(v, d + 1, e);
        PermutedTrans(w, v, Group(v, d + 1, e), c, d + 1, e);
      }
    }
  }

  lemma {:induction false} GroupGroups(w: seq<Device>, a: nat, c: nat, e: nat)
    requires Progress(w, a, c, e)
    ensures Grouped(Group(w, c, e), a, e)
    decreases e - c
  {
    hide Pull, Same, Closed;
    if c + 1 < e {
      PullKeeps(w, a, c, c + 2, e);
      var (v, d) := Pull(w, c, c + 2, e);
      if d + 1 < e {
        Advance(v, a, d, e);
        GroupGroups(v, a, d + 1, e);
      }
    }
  }

  // Sorting leaves all devices outside the first run of network devices, and the
  // first of the run, in place; permutes the rest of the run; and makes devices with
  // the same known driver adjacent within it.
  lemma SortGroups(w: seq<Device>)
    ensures var a := Skip(w, 0, true);
            var e := Skip(w, a, false);
            if a == |w| then Sorted(w) == w
            else a < e && Permuted(w, Sorted(w), a, e) && Grouped(Sorted(w), a, e)
                 && (forall k :: a <= k < e ==> w[k].IsNetwork()) && (e < |w| ==> !w[e].IsNetwork())
  {
    var a := Skip(w, 0, true);
    if a < |w| {
      GroupGroups(w, a, a, Skip(w, a, false));
      GroupPermutes(w, a, Skip(w, a, false));
    }
  }

  ghost predicate Contiguous(w: seq<Device>) {
    forall i, j, k :: 0 <= i < j < k < |w| && w[i].IsNetwork() && w[k].IsNetwork() ==> w[j].IsNetwork()
  }

  lemma OutsideStays(w: seq<Device>, v: seq<Device>, a: nat, e: nat, k: nat)
    requires a < e <= |w| && Permuted(w, v, a, e) && k < |w|
    ensures k <= a || e <= k ==> v[k] == w[k]
  {
    assert k <= a ==> v[k] == v[..a + 1][k] && w[k] == w[..a + 1][k];
    assert e <= k ==> v[k] == v[e..][k - e] && w[k] == w[e..][k - e];
  }

  lemma NetworkIsInRun(w: seq<Device>, k: nat)
    requires Contiguous(w) && k < |w| == |Sorted(w)|
    ensures var a := Skip(w, 0, true);
            Sorted(w)[k].IsNetwork() ==> a <= k < Skip(w, a, false)
  {
    SortGroups(w);
    var a := Skip(w, 0, true);
    if a < |w| {
      var e := Skip(w, a, false);
      OutsideStays(w, Sorted(w), a, e, k);
      assert e < k && !w[e].IsNetwork() && w[a].IsNetwork() ==> !w[k].IsNetwork();
    }
  }

  // If the network devices are contiguous, the whole list is grouped.
  lemma ContiguousIsGrouped(w: seq<Device>)
    requires Contiguous(w)
    ensures |Sorted(w)| == |w| && multiset(Sorted(w)) == multiset(w)
    ensures forall i, j, k :: 0 <= i < j < k < |w| && Sorted(w)[i].IsNetwork() && Sorted(w)[k].IsNetwork()
                && Same(Sorted(w)[i], Sorted(w)[k])
              ==> Same(Sorted(w)[i], Sorted(w)[j])
  {
    SortGroups(w);
    var v := Sorted(w);
    forall i, j, k | 0 <= i < j < k < |w| && v[i].IsNetwork() && v[k].IsNetwork() && Same(v[i], v[k])
      ensures Same(v[i], v[j])
    {
      NetworkIsInRun(w, i);
      NetworkIsInRun(w, k);
    }
  }
}
