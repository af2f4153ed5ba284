// Diffing two device lists by unlinking matches from both at once.
module ListDiff {
  import opened Common
  import opened Devices

  // Nonzero means "different", as for every compareDevice.
  type Compare = (Device, Device) -> int

  // ------------------------------------------------------------ specification

  // The first element of s that `cmp` does not tell from d; |s| if none.
  function FirstMatch<T>(d: T, s: seq<T>, cmp: (T, T) -> int): (i: nat)
    ensures i <= |s|
    ensures i < |s| ==> cmp(d, s[i]) == 0
    ensures forall k :: 0 <= k < i ==> cmp(d, s[k]) != 0
  {
    if s == [] || cmp(d, s[0]) == 0 then 0 else 1 + FirstMatch(d, s[1..], cmp)
  }

  function Without<T>(s: seq<T>, i: nat): seq<T>
    requires i < |s|
  {
    s[..i] + s[i + 1..]
  }

  // What is left of each list, and the pairs removed.
  datatype Result<T> = Result(left1: seq<T>, left2: seq<T>, pairs: seq<(T, T)>)

  function Diff<T>(s1: seq<T>, s2: seq<T>, cmp: (T, T) -> int): Result<T> {
    if s1 == [] then Result([], s2, [])
    else
      var i := FirstMatch(s1[0], s2, cmp);
      if i == |s2| then
        var r := Diff(s1[1..], s2, cmp);
        r.(left1 := [s1[0]] + r.left1)
      else
        var r := Diff(s1[1..], Without(s2, i), cmp);
        r.(pairs := [(s1[0], s2[i])] + r.pairs)
  }

  // -------------------------------------------------------------- the program

  // Turns an array of devices into a list.
  method Link(list: seq<Device>)
    requires Distinct(list)
    modifies list
    ensures Chain(list, At(list, 0))
  {
    for x := 0 to |list|
      invariant forall i :: 0 <= i < x ==> list[i].next == At(list, i + 1)
    {
      list[x].next := if x + 1 < |list| then list[x + 1] else null;
    }
  }

  // Collects a list into an array.
  method Collect(head: Device?, ghost s: seq<Device>) returns (ret: seq<Device>)
    requires Chain(s, head)
    ensures ret == s
  {
    ret := [];
    var curr := head;
    while curr != null
      invariant |ret| <= |s| && ret == s[..|ret|] && curr == At(s, |ret|)
      decreases |s| - |ret|
    {
      ret := ret + [curr];
      curr := curr.next;
    }
  }

  function Before(s: seq<Device>, k: nat): Device?
    requires k <= |s|
  {
    if k == 0 then null else s[k - 1]
  }

  // Takes curr, the k-th node, out of the list that starts at head. Its own `next`
  // is left alone.
  method Unlink(head: Device?, prev: Device?, curr: Device, ghost s: seq<Device>, ghost k: nat)
    returns (newHead: Device?)
    requires Distinct(s) && Chain(s, head) && k < |s| && curr == s[k] && prev == Before(s, k)
    modifies if k == 0 then {} else {s[k - 1]}
    ensures Chain(Without(s, k), newHead)
    ensures curr.next == At(s, k + 1)
  {
    if prev == null {
      newHead := curr.next;
    } else {
      prev.next := curr.next;
      newHead := head;
    }
  }

  ghost predicate Apart(s: seq<Device>, t: seq<Device>) {
    forall d :: d in s ==> d !in t
  }

  // Both unlinking steps of one match.
  method RemovePair(
      head1: Device?, prev1: Device?, curr1: Device, ghost s: seq<Device>, ghost k: nat,
      head2: Device?, prev2: Device?, curr2: Device, ghost t: seq<Device>, ghost m: nat)
    returns (newHead1: Device?, newHead2: Device?)
    requires Distinct(s) && Chain(s, head1) && k < |s| && curr1 == s[k] && prev1 == Before(s, k)
    requires Distinct(t) && Chain(t, head2) && m < |t| && curr2 == t[m] && prev2 == Before(t, m)
    requires Apart(s, t)
    modifies s, t
    ensures Chain(Without(s, k), newHead1) && Chain(Without(t, m), newHead2)
    ensures curr1.next == At(s, k + 1)
  {
    newHead1 := Unlink(head1, prev1, curr1, s, k);
    assert forall d :: d in t ==> d.next == old(d.next) by {
      assert k > 0 ==> s[k - 1] in s;
    }
    ghost var rest := Without(s, k);
    WithoutFacts(s, k, t);
    assert curr1 in s && curr1 !in t;
    assert m > 0 ==> t[m - 1] in t && t[m - 1] !in rest;
    label Between:
    newHead2 := Unlink(head2, prev2, curr2, t, m);
    assert forall d :: d in rest ==> d.next == old@Between(d.next);
  }

  // The inner loop of listCompare: the first node of list 2 equal to curr1.
  method Scan(curr1: Device, head2: Device?, stale: int, cmp: Compare, ghost s2: seq<Device>)
    returns (prev2: Device?, curr2: Device?, notfound: int)
    requires Chain(s2, head2)
    ensures var i := FirstMatch<Device>(curr1, s2, cmp);
            && curr2 == At(s2, i) && prev2 == (if i == 0 then null else s2[i - 1])
            && (notfound == 0 <==> if s2 == [] then stale == 0 else i < |s2|)
  {
    curr2 := head2;
    prev2 := null;
    notfound := stale;
    ghost var i := 0;
    while curr2 != null
      invariant i <= |s2| && curr2 == At(s2, i) && prev2 == (if i == 0 then null else s2[i - 1])
      invariant forall k :: 0 <= k < i ==> cmp(curr1, s2[k]) != 0
      invariant if i == 0 then notfound == stale else notfound != 0
      decreases |s2| - i
    {
      notfound := cmp(curr1, curr2);
      if notfound == 0 {
        FirstMatchIs(curr1, s2, cmp, i);
        return;
      }
      prev2 := curr2;
      curr2 := curr2.next;
      i := i + 1;
    }
    FirstMatchIs(curr1, s2, cmp, i);
  }

  lemma FirstMatchIs<T>(d: T, s: seq<T>, cmp: (T, T) -> int, i: nat)
    requires i <= |s| && forall k :: 0 <= k < i ==> cmp(d, s[k]) != 0
    requires i < |s| ==> cmp(d, s[i]) == 0
    ensures FirstMatch(d, s, cmp) == i
  {
    var k := FirstMatch(d, s, cmp);
    assert k < |s| ==> cmp(d, s[k]) == 0;
  }

  lemma WithoutFacts(s: seq<Device>, k: nat, t: seq<Device>)
    requires Distinct(s) && k < |s| && Apart(s, t)
    ensures s[k] !in Without(s, k)
    ensures Distinct(Without(s, k)) && Apart(Without(s, k), t) && Apart(t, Without(s, k))
    ensures forall d :: d in Without(s, k) ==> d in s
  {
    var s' := Without(s, k);
    assert forall i :: 0 <= i < |s'| ==> s'[i] == s[if i < k then i else i + 1];
  }

  // The state of the outer loop: what is left of list 1, with k nodes passed, and of
  // list 2. prev1 need not be the node before s[k] once list 2 is empty.
  ghost predicate Ready(s: seq<Device>, k: nat, t: seq<Device>, head1: Device?, prev1: Device?, head2: Device?)
    reads s, t
  {
    && Chain(s, head1) && Chain(t, head2) && k <= |s|
    && Distinct(s) && Distinct(t) && Apart(s, t)
    && (t != [] ==> prev1 == Before(s, k))
  }

  // The body of the outer loop of listCompare. The test after the inner loop reads a
  // stale `notfound` once list 2 is empty.
  method CompareOne(
      head1: Device?, prev1: Device?, curr1: Device, head2: Device?, stale: int, cmp: Compare,
      ghost s: seq<Device>, ghost k: nat, ghost t: seq<Device>, ghost nodes: set<Device>)
    returns (newHead1: Device?, newPrev1: Device?, newHead2: Device?, notfound: int, next: Device?,
             ghost s': seq<Device>, ghost k': nat, ghost t': seq<Device>)
    requires Ready(s, k, t, head1, prev1, head2) && k < |s| && curr1 == s[k]
    requires AllIn(s, nodes) && AllIn(t, nodes)
    modifies nodes
    ensures AllIn(s', nodes) && AllIn(t', nodes)
    ensures Ready(s', k', t', newHead1, newPrev1, newHead2) && next == At(s', k')
    ensures var m := FirstMatch<Device>(s[k], t, cmp);
            if m == |t| then s' == s && k' == k + 1 && t' == t
            else s' == Without(s, k) && k' == k && t' == Without(t, m)
  {
    s', k', t' := s, k, t;
    newHead1, newPrev1, newHead2 := head1, prev1, head2;
    ghost var m := FirstMatch<Device>(curr1, t, cmp);
    var prev2, curr2;
    prev2, curr2, notfound := Scan(curr1, head2, stale, cmp, t);
    if curr2 != null {
      newHead1, newHead2 := RemovePair(head1, prev1, curr1, s, k, head2, prev2, curr2, t, m);
      s', t' := Without(s, k), Without(t, m);
      WithoutFacts(s, k, t);
      WithoutFacts(t, m, s');
    } else {
      if notfound != 0 { newPrev1 := curr1; }
      k' := k + 1;
    }
    next := curr1.next;
  }

  // The outer loop of listCompare.
  method UnlinkMatches(first1: Device?, first2: Device?, cmp: Compare,
                       ghost list1: seq<Device>, ghost list2: seq<Device>, ghost nodes: set<Device>)
    returns (head1: Device?, head2: Device?, ghost s: seq<Device>, ghost t: seq<Device>)
    requires Ready(list1, 0, list2, first1, null, first2) && AllIn(list1, nodes) && AllIn(list2, nodes)
    modifies nodes
    ensures s == Diff<Device>(list1, list2, cmp).left1 && t == Diff<Device>(list1, list2, cmp).left2
    ensures Chain(s, head1) && Chain(t, head2)
  {
    head1, head2 := first1, first2;
    var curr1, prev1: Device? := head1, null;
    var notfound := 1;
    ghost var k: nat;
    s, t, k := list1, list2, 0;
    LeftOverStarts(list1, list2, cmp);
    while curr1 != null
      invariant Ready(s, k, t, head1, prev1, head2) && curr1 == At(s, k)
      invariant AllIn(s, nodes) && AllIn(t, nodes)
      invariant LeftOver(list1, list2, s, k, t, cmp)
      decreases |s| - k
    {
      LeftOverStep(list1, list2, s, k, t, cmp);
      head1, prev1, head2, notfound, curr1, s, k, t :=
        CompareOne(head1, prev1, curr1, head2, notfound, cmp, s, k, t, nodes);
    }
    LeftOverEnds(list1, list2, s, t, cmp);
  }

  // listCompare: unlinks matching devices from both lists and returns what is left.
  method ListCompare(list1: seq<Device>, list2: seq<Device>, cmp: Compare)
    returns (ret1: seq<Device>, ret2: seq<Device>, differ: bool)
    requires Distinct(list1) && Distinct(list2) && Apart(list1, list2)
    modifies list1, list2
    ensures ret1 == Diff<Device>(list1, list2, cmp).left1 && ret2 == Diff<Device>(list1, list2, cmp).left2
    ensures differ <==> ret1 != [] || ret2 != []
    ensures Chain(ret1, At(ret1, 0)) && Chain(ret2, At(ret2, 0))
  {
    Link(list1);
    assert forall j :: 0 <= j < |list1| ==> list1[j] !in list2;
    Link(list2);
    ghost var nodes := (set d | d in list1) + (set d | d in list2);
    var head1, head2, s, t := UnlinkMatches(At(list1, 0), At(list2, 0), cmp, list1, list2, nodes);
    ret1 := Collect(head1, s);
    ret2 := Collect(head2, t);
    differ := head1 != null || head2 != null;
  }

  // The final result is what the loop has kept and what the rest will leave.
  ghost predicate LeftOver(
      list1: seq<Device>, list2: seq<Device>, s: seq<Device>, k: nat, t: seq<Device>, cmp: Compare)
  {
    && k <= |s|
    && Diff<Device>(list1, list2, cmp).left1 == s[..k] + Diff<Device>(s[k..], t, cmp).left1
    && Diff<Device>(list1, list2, cmp).left2 == Diff<Device>(s[k..], t, cmp).left2
  }

  lemma LeftOverStarts(list1: seq<Device>, list2: seq<Device>, cmp: Compare)
    ensures LeftOver(list1, list2, list1, 0, list2, cmp)
  {
    assert list1[0..] == list1;
  }

  lemma LeftOverEnds(list1: seq<Device>, list2: seq<Device>, s: seq<Device>, t: seq<Device>, cmp: Compare)
    requires LeftOver(list1, list2, s, |s|, t, cmp)
    ensures Diff<Device>(list1, list2, cmp).left1 == s && Diff<Device>(list1, list2, cmp).left2 == t
  {
    assert s[|s|..] == [] && s[..|s|] == s;
  }

  lemma LeftOverStep(list1: seq<Device>, list2: seq<Device>, s: seq<Device>, k: nat, t: seq<Device>, cmp: Compare)
    requires LeftOver(list1, list2, s, k, t, cmp) && k < |s|
    ensures var m := FirstMatch<Device>(s[k], t, cmp);
            if m == |t| then LeftOver(list1, list2, s, k + 1, t, cmp)
            else LeftOver(list1, list2, Without(s, k), k, Without(t, m), cmp)
  {
    var m := FirstMatch<Device>(s[k], t, cmp);
    if m == |t| {
      KeepStep(s, k, t, cmp);
    } else {
      MatchStep(s, k, Without(s, k), t, m, Without(t, m), cmp);
    }
  }

  lemma DiffUnfold<T>(s: seq<T>, later: seq<T>, t: seq<T>, cmp: (T, T) -> int)
    requires s != [] && later == s[1..]
    ensures var m := FirstMatch(s[0], t, cmp);
            var r := if m == |t| then Diff(later, t, cmp) else Diff(later, Without(t, m), cmp);
            && Diff(s, t, cmp).left1 == (if m == |t| then [s[0]] + r.left1 else r.left1)
            && Diff(s, t, cmp).left2 == r.left2
  {
  }

  // One turn of the outer loop, seen on the sequences.
  lemma KeepStep(s: seq<Device>, k: nat, t: seq<Device>, cmp: Compare)
    requires k < |s| && FirstMatch<Device>(s[k], t, cmp) == |t|
    ensures Diff<Device>(s[k..], t, cmp).left2 == Diff<Device>(s[k + 1..], t, cmp).left2
    ensures s[..k] + Diff<Device>(s[k..], t, cmp).left1 == s[..k + 1] + Diff<Device>(s[k + 1..], t, cmp).left1
  {
    DiffUnfold<Device>(s[k..], s[k + 1..], t, cmp);
    Reassociate(s, k, Diff<Device>(s[k + 1..], t, cmp).left1);
  }

  lemma Reassociate(s: seq<Device>, k: nat, r: seq<Device>)
    requires k < |s|
    ensures s[..k] + ([s[k]] + r) == s[..k + 1] + r
  {
  }

  lemma MatchStep(s: seq<Device>, k: nat, s': seq<Device>, t: seq<Device>, m: nat, t': seq<Device>, cmp: Compare)
    requires k < |s| && m < |t| && FirstMatch<Device>(s[k], t, cmp) == m
    requires s' == Without(s, k) && t' == Without(t, m)
    ensures s[..k] == s'[..k]
    ensures Diff<Device>(s[k..], t, cmp).left1 == Diff<Device>(s'[k..], t', cmp).left1
    ensures Diff<Device>(s[k..], t, cmp).left2 == Diff<Device>(s'[k..], t', cmp).left2
  {
    assert s'[k..] == s[k + 1..];
    DiffUnfold<Device>(s[k..], s[k + 1..], t, cmp);
  }
}
