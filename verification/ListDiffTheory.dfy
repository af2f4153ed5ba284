// What the list diff promises: order kept, matches paired off one to one, nothing
// matching left behind, and the multiset difference when devices fall into classes.
module ListDiffTheory {
  import opened Common
  import opened Devices
  import opened ListDiff

  // a is b with some elements taken out.
  ghost predicate Sublist<T>(a: seq<T>, b: seq<T>)
    decreases |b|
  {
    a == [] || (b != [] && ((a[0] == b[0] && Sublist(a[1..], b[1..])) || Sublist(a, b[1..])))
  }

  lemma {:induction false} SublistRefl<T>(a: seq<T>)
    ensures Sublist(a, a)
  {
    if a != [] { SublistRefl(a[1..]); }
  }

  lemma {:induction false} SublistTail<T>(a: seq<T>, b: seq<T>)
    requires a != [] && Sublist(a, b)
    ensures Sublist(a[1..], b)
    decreases |b|
  {
    if !(a[0] == b[0] && Sublist(a[1..], b[1..])) { SublistTail(a, b[1..]); }
  }

  lemma {:induction false} SublistTrans<T>(a: seq<T>, b: seq<T>, c: seq<T>)
    requires Sublist(a, b) && Sublist(b, c)
    ensures Sublist(a, c)
    decreases |c|
  {
    if a != [] {
      if b[0] == c[0] && Sublist(b[1..], c[1..]) {
        if a[0] == b[0] && Sublist(a[1..], b[1..]) {
          SublistTrans(a[1..], b[1..], c[1..]);
        } else {
          SublistTrans(a, b[1..], c[1..]);
        }
      } else {
        SublistTrans(a, b, c[1..]);
      }
    }
  }

  lemma {:induction false} WithoutIsSublist<T>(s: seq<T>, i: nat)
    requires i < |s|
    ensures Sublist(Without(s, i), s)
  {
    if i == 0 {
      assert Without(s, 0) == s[1..];
      SublistRefl(s[1..]);
    } else {
      assert Without(s, i)[1..] == Without(s[1..], i - 1);
      WithoutIsSublist(s[1..], i - 1);
    }
  }

  function Firsts<T>(pairs: seq<(T, T)>): (r: seq<T>)
  {
    if pairs == [] then [] else [pairs[0].0] + Firsts(pairs[1..])
  }

  function Seconds<T>(pairs: seq<(T, T)>): seq<T> {
    if pairs == [] then [] else [pairs[0].1] + Seconds(pairs[1..])
  }

  // The leftovers keep the order of the inputs.
  lemma {:induction false} LeftoversKeepOrder<T>(s1: seq<T>, s2: seq<T>, cmp: (T, T) -> int)
    ensures Sublist(Diff(s1, s2, cmp).left1, s1)
    ensures Sublist(Diff(s1, s2, cmp).left2, s2)
    decreases |s1|
  {
    if s1 == [] {
      SublistRefl(s2);
    } else {
      var i := FirstMatch(s1[0], s2, cmp);
      if i == |s2| {
        LeftoversKeepOrder(s1[1..], s2, cmp);
      } else {
        LeftoversKeepOrder(s1[1..], Without(s2, i), cmp);
        WithoutIsSublist(s2, i);
        SublistTrans(Diff(s1, s2, cmp).left2, Without(s2, i), s2);
      }
    }
  }

  lemma WithoutMultiset<T>(s: seq<T>, i: nat)
    requires i < |s|
    ensures multiset(s) == multiset(Without(s, i)) + multiset{s[i]}
  {
    assert s == s[..i] + [s[i]] + s[i + 1..];
  }

  // The removed devices pair off one to one: every pair compares equal, and leftovers
  // and pair members together are exactly the input, list by list.
  lemma {:induction false} RemovedArePaired<T>(s1: seq<T>, s2: seq<T>, cmp: (T, T) -> int)
    ensures var r := Diff(s1, s2, cmp);
            && (forall p :: p in r.pairs ==> cmp(p.0, p.1) == 0)
            && multiset(s1) == multiset(r.left1) + multiset(Firsts(r.pairs))
            && multiset(s2) == multiset(r.left2) + multiset(Seconds(r.pairs))
    decreases |s1|
  {
    hide Without, FirstMatch;
    if s1 != [] {
      var i := FirstMatch(s1[0], s2, cmp);
      assert s1 == [s1[0]] + s1[1..];
      if i == |s2| {
        RemovedArePaired(s1[1..], s2, cmp);
      } else {
        RemovedArePaired(s1[1..], Without(s2, i), cmp);
        WithoutMultiset(s2, i);
        PairAdded(s1[0], s2[i], Diff(s1[1..], Without(s2, i), cmp).pairs);
      }
    }
  }

  lemma PairAdded<T>(a: T, b: T, pairs: seq<(T, T)>)
    ensures multiset(Firsts([(a, b)] + pairs)) == multiset{a} + multiset(Firsts(pairs))
    ensures multiset(Seconds([(a, b)] + pairs)) == multiset{b} + multiset(Seconds(pairs))
  {
    assert ([(a, b)] + pairs)[1..] == pairs;
  }

  lemma {:induction false} SublistMembers<T>(a: seq<T>, b: seq<T>)
    requires Sublist(a, b)
    ensures forall x :: x in a ==> x in b
    decreases |b|
  {
    if a != [] {
      assert a == [a[0]] + a[1..] && b == [b[0]] + b[1..];
      if a[0] == b[0] && Sublist(a[1..], b[1..]) { SublistMembers(a[1..], b[1..]); }
      else { SublistMembers(a, b[1..]); }
    }
  }

  // No leftover of list 1 compares equal to any leftover of list 2, for any compare
  // function.
  lemma {:induction false} NoMatchIsLeft<T>(s1: seq<T>, s2: seq<T>, cmp: (T, T) -> int)
    ensures forall a, b :: a in Diff(s1, s2, cmp).left1 && b in Diff(s1, s2, cmp).left2 ==> cmp(a, b) != 0
    decreases |s1|
  {
    if s1 != [] {
      var i := FirstMatch(s1[0], s2, cmp);
      if i == |s2| {
        NoMatchIsLeft(s1[1..], s2, cmp);
        LeftoversKeepOrder(s1[1..], s2, cmp);
        SublistMembers(Diff(s1[1..], s2, cmp).left2, s2);
      } else {
        NoMatchIsLeft(s1[1..], Without(s2, i), cmp);
      }
    }
  }

  // ----------------------------------------------------- devices in classes

  // cmp finds a device of s1 and one of s2 equal exactly when their class is the same.
  ghost predicate ByClass<T, K>(s1: seq<T>, s2: seq<T>, cmp: (T, T) -> int, class_: T -> K) {
    forall a, b :: a in s1 && b in s2 ==> (cmp(a, b) == 0 <==> class_(a) == class_(b))
  }

  ghost function Count<T, K>(s: seq<T>, class_: T -> K, c: K): nat {
    if s == [] then 0 else (if class_(s[0]) == c then 1 else 0) + Count(s[1..], class_, c)
  }

  lemma {:induction false} CountConcat<T, K>(a: seq<T>, b: seq<T>, class_: T -> K, c: K)
    ensures Count(a + b, class_, c) == Count(a, class_, c) + Count(b, class_, c)
  {
    if a == [] {
      assert a + b == b;
    } else {
      assert (a + b)[1..] == a[1..] + b;
      CountConcat(a[1..], b, class_, c);
    }
  }

  lemma CountWithout<T, K>(s: seq<T>, i: nat, class_: T -> K, c: K)
    requires i < |s|
    ensures Count(s, class_, c) == Count(Without(s, i), class_, c) + (if class_(s[i]) == c then 1 else 0)
  {
    hide Count;
    assert s == s[..i] + ([s[i]] + s[i + 1..]);
    CountConcat(s[..i], [s[i]] + s[i + 1..], class_, c);
    CountConcat([s[i]], s[i + 1..], class_, c);
    CountConcat(s[..i], s[i + 1..], class_, c);
    CountOne(s[i], class_, c);
  }

  lemma CountOne<T, K>(d: T, class_: T -> K, c: K)
    ensures Count([d], class_, c) == if class_(d) == c then 1 else 0
  {
    assert [d][1..] == [];
  }

  lemma {:induction false} NoMatchNoClass<T, K>(d: T, s: seq<T>, cmp: (T, T) -> int, class_: T -> K)
    requires ByClass([d], s, cmp, class_)
    ensures FirstMatch(d, s, cmp) == |s| ==> Count(s, class_, class_(d)) == 0
  {
    if s != [] && cmp(d, s[0]) != 0 {
      assert d in [d] && s[0] in s;
      NoMatchNoClass(d, s[1..], cmp, class_);
    }
  }

  // For a compare function that sorts devices into classes, the diff is the multiset
  // difference: of each class, exactly the surplus is left, on the side that has it.
  lemma {:induction false} SurplusIsLeft<T, K>(
    s1: seq<T>, s2: seq<T>, cmp: (T, T) -> int, class_: T -> K, c: K)
    requires ByClass(s1, s2, cmp, class_)
    ensures var n1, n2, r := Count(s1, class_, c), Count(s2, class_, c), Diff(s1, s2, cmp);
            && Count(r.left1, class_, c) == (if n1 > n2 then n1 - n2 else 0)
            && Count(r.left2, class_, c) == (if n2 > n1 then n2 - n1 else 0)
    decreases |s1|
  {
    if s1 != [] {
      var i := FirstMatch(s1[0], s2, cmp);
      if i == |s2| {
        NoMatchNoClass(s1[0], s2, cmp, class_);
        SurplusIsLeft(s1[1..], s2, cmp, class_, c);
        assert Diff(s1, s2, cmp).left1[1..] == Diff(s1[1..], s2, cmp).left1;
      } else {
        CountWithout(s2, i, class_, c);
        assert s1[0] in s1 && s2[i] in s2;
        assert forall b :: b in Without(s2, i) ==> b in s2;
        SurplusIsLeft(s1[1..], Without(s2, i), cmp, class_, c);
      }
    }
  }

  lemma {:induction false} CountedMember<T, K>(s: seq<T>, class_: T -> K)
    ensures s != [] ==> Count(s, class_, class_(s[0])) > 0
  {
  }

  // Then the diff reports no difference exactly when every class is equally frequent
  // in both lists, whatever the order.
  lemma NoDifferenceIff<T, K(!new)>(s1: seq<T>, s2: seq<T>, cmp: (T, T) -> int, class_: T -> K)
    requires ByClass(s1, s2, cmp, class_)
    ensures (Diff(s1, s2, cmp).left1 == [] && Diff(s1, s2, cmp).left2 == [])
       <==> forall c :: Count(s1, class_, c) == Count(s2, class_, c)
  {
    var r := Diff(s1, s2, cmp);
    if r.left1 == [] && r.left2 == [] {
      forall c ensures Count(s1, class_, c) == Count(s2, class_, c) {
        SurplusIsLeft(s1, s2, cmp, class_, c);
      }
    } else if r.left1 != [] {
      CountedMember(r.left1, class_);
      SurplusIsLeft(s1, s2, cmp, class_, class_(r.left1[0]));
    } else {
      CountedMember(r.left2, class_);
      SurplusIsLeft(s1, s2, cmp, class_, class_(r.left2[0]));
    }
  }

  // ------------------------------------------------- pairing off all that can be

  // Pairs of equal devices, no device in more than one.
  ghost predicate Matching<T>(m: seq<(T, T)>, s1: seq<T>, s2: seq<T>, cmp: (T, T) -> int) {
    && (forall p :: p in m ==> cmp(p.0, p.1) == 0)
    && multiset(Firsts(m)) <= multiset(s1) && multiset(Seconds(m)) <= multiset(s2)
  }

  // No way of pairing devices off removes more of them than the diff does.
  ghost predicate PairsAllItCan<T(!new)>(s1: seq<T>, s2: seq<T>, cmp: (T, T) -> int) {
    forall m :: Matching(m, s1, s2, cmp) ==> |m| <= |Diff(s1, s2, cmp).pairs|
  }

  // Two devices of list 1 that equal a common device of list 2 equal the same ones of it.
  ghost predicate Rectangular<T(!new)>(s1: seq<T>, s2: seq<T>, cmp: (T, T) -> int) {
    forall a, a', b, b' ::
      (a in s1 && a' in s1 && b in s2 && b' in s2 && cmp(a, b) == 0 && cmp(a, b') == 0 && cmp(a', b) == 0)
      ==> cmp(a', b') == 0
  }

  lemma {:induction false} PairParts<T>(m: seq<(T, T)>)
    ensures |Firsts(m)| == |Seconds(m)| == |m|
    ensures forall k :: 0 <= k < |m| ==> Firsts(m)[k] == m[k].0 && Seconds(m)[k] == m[k].1
  {
    if m != [] { PairParts(m[1..]); }
  }

  lemma {:induction false} PartsConcat<T>(a: seq<(T, T)>, b: seq<(T, T)>)
    ensures Firsts(a + b) == Firsts(a) + Firsts(b) && Seconds(a + b) == Seconds(a) + Seconds(b)
  {
    if a == [] {
      assert a + b == b;
    } else {
      assert (a + b)[1..] == a[1..] + b;
      PartsConcat(a[1..], b);
    }
  }

  lemma OnePair<T>(p: (T, T))
    ensures Firsts([p]) == [p.0] && Seconds([p]) == [p.1]
  {
    assert [p][1..] == [];
  }

  lemma WithoutPair<T>(m: seq<(T, T)>, k: nat)
    requires k < |m|
    ensures multiset(Firsts(m)) == multiset(Firsts(Without(m, k))) + multiset{m[k].0}
    ensures multiset(Seconds(m)) == multiset(Seconds(Without(m, k))) + multiset{m[k].1}
  {
    hide Firsts, Seconds;
    var pre, post := m[..k], m[k + 1..];
    assert m == pre + ([m[k]] + post);
    PartsConcat(pre, [m[k]] + post);
    PartsConcat([m[k]], post);
    OnePair(m[k]);
    PartsConcat(pre, post);
  }

  // What is left of a part when the same element goes from it and from the whole.
  lemma Shrink<T>(f: multiset<T>, g: multiset<T>, s: multiset<T>, r: multiset<T>, a: T)
    requires f <= s && s == r + multiset{a} && (f == g + multiset{a} || (f == g && f[a] == 0))
    ensures g <= r
  {
    forall x ensures g[x] <= r[x] {
      assert f[x] <= s[x];
    }
  }

  // A pair of the matching: its parts are in the lists.
  lemma PairIn<T>(m: seq<(T, T)>, s1: seq<T>, s2: seq<T>, cmp: (T, T) -> int, k: nat)
    requires Matching(m, s1, s2, cmp) && k < |m|
    ensures m[k].0 in s1 && m[k].1 in s2
  {
    PairParts(m);
    assert Firsts(m)[k] in multiset(Firsts(m)) && Seconds(m)[k] in multiset(Seconds(m));
    assert m[k].0 in multiset(s1) && m[k].1 in multiset(s2);
  }

  // Once a and b are paired off, the rest can be matched with at most one pair less.
  lemma Exchange<T(!new)>(m: seq<(T, T)>, s1: seq<T>, s2: seq<T>, r1: seq<T>, r2: seq<T>, cmp: (T, T) -> int,
                          a: T, b: T)
    returns (m': seq<(T, T)>)
    requires Matching(m, s1, s2, cmp) && Rectangular(s1, s2, cmp) && a in s1 && b in s2 && cmp(a, b) == 0
    requires multiset(s1) == multiset(r1) + multiset{a} && multiset(s2) == multiset(r2) + multiset{b}
    ensures Matching(m', r1, r2, cmp) && |m'| + 1 >= |m|
  {
    hide Firsts, Seconds, Rectangular;
    if k :| 0 <= k < |m| && m[k].0 == a && m[k].1 == b {
      m' := OneLess(m, s1, s2, r1, r2, cmp, a, b, k);
    } else if k, l :| 0 <= k < |m| && 0 <= l < |m| && m[k].0 == a && m[l].1 == b {
      m' := Joined(m, s1, s2, r1, r2, cmp, a, b, k, l);
    } else if k :| 0 <= k < |m| && m[k].0 == a {
      NotSecond(m, b);
      m' := OneLess(m, s1, s2, r1, r2, cmp, a, b, k);
    } else if k :| 0 <= k < |m| && m[k].1 == b {
      NotFirst(m, a);
      m' := OneLess(m, s1, s2, r1, r2, cmp, a, b, k);
    } else {
      NotFirst(m, a);
      NotSecond(m, b);
      Shrink(multiset(Firsts(m)), multiset(Firsts(m)), multiset(s1), multiset(r1), a);
      Shrink(multiset(Seconds(m)), multiset(Seconds(m)), multiset(s2), multiset(r2), b);
      m' := m;
    }
  }

  // A pair that holds a or b, or both, goes.
  lemma OneLess<T(!new)>(m: seq<(T, T)>, s1: seq<T>, s2: seq<T>, r1: seq<T>, r2: seq<T>, cmp: (T, T) -> int,
                         a: T, b: T, k: nat) returns (m': seq<(T, T)>)
    requires Matching(m, s1, s2, cmp) && k < |m|
    requires multiset(s1) == multiset(r1) + multiset{a} && multiset(s2) == multiset(r2) + multiset{b}
    requires m[k].0 == a || multiset(Firsts(m))[a] == 0
    requires m[k].1 == b || multiset(Seconds(m))[b] == 0
    ensures Matching(m', r1, r2, cmp) && |m'| + 1 == |m|
  {
    hide Firsts, Seconds;
    m' := Without(m, k);
    WithoutPair(m, k);
    Less(multiset(Firsts(m)), multiset(Firsts(m')), m[k].0, multiset(s1), multiset(r1), a);
    Less(multiset(Seconds(m)), multiset(Seconds(m')), m[k].1, multiset(s2), multiset(r2), b);
  }

  lemma Less<T>(f: multiset<T>, g: multiset<T>, x: T, s: multiset<T>, r: multiset<T>, a: T)
    requires f <= s && s == r + multiset{a} && f == g + multiset{x} && (x == a || f[a] == 0)
    ensures g <= r
  {
    if x == a { Shrink(f, g, s, r, a); } else { Shrink(g, g, s, r, a); }
  }

  lemma NotFirst<T>(m: seq<(T, T)>, a: T)
    requires forall k :: 0 <= k < |m| ==> m[k].0 != a
    ensures multiset(Firsts(m))[a] == 0
  {
    PairParts(m);
    assert a !in Firsts(m);
  }

  lemma NotSecond<T>(m: seq<(T, T)>, b: T)
    requires forall k :: 0 <= k < |m| ==> m[k].1 != b
    ensures multiset(Seconds(m))[b] == 0
  {
    PairParts(m);
    assert b !in Seconds(m);
  }

  // The partners of a and of b equal each other, so they can be paired instead.
  lemma Joined<T(!new)>(m: seq<(T, T)>, s1: seq<T>, s2: seq<T>, r1: seq<T>, r2: seq<T>, cmp: (T, T) -> int,
                        a: T, b: T, k: nat, l: nat) returns (m': seq<(T, T)>)
    requires Matching(m, s1, s2, cmp) && Rectangular(s1, s2, cmp) && a in s1 && b in s2 && cmp(a, b) == 0
    requires multiset(s1) == multiset(r1) + multiset{a} && multiset(s2) == multiset(r2) + multiset{b}
    requires k < |m| && l < |m| && k != l && m[k].0 == a && m[l].1 == b
    ensures Matching(m', r1, r2, cmp) && |m'| + 1 == |m|
  {
    hide Firsts, Seconds;
    var x, y := m[l].0, m[k].1;
    PairIn(m, s1, s2, cmp, k);
    PairIn(m, s1, s2, cmp, l);
    assert cmp(x, y) == 0;
    var rest := WithoutTwo(m, k, l);
    m' := [(x, y)] + rest;
    PairAdded(x, y, rest);
    Shrink(multiset(Firsts(m)), multiset(Firsts(m')), multiset(s1), multiset(r1), a);
    Shrink(multiset(Seconds(m)), multiset(Seconds(m')), multiset(s2), multiset(r2), b);
  }

  lemma WithoutTwo<T>(m: seq<(T, T)>, k: nat, l: nat) returns (rest: seq<(T, T)>)
    requires k < |m| && l < |m| && k != l
    ensures |rest| + 2 == |m| && forall p :: p in rest ==> p in m
    ensures multiset(Firsts(m)) == multiset(Firsts(rest)) + multiset{m[k].0} + multiset{m[l].0}
    ensures multiset(Seconds(m)) == multiset(Seconds(rest)) + multiset{m[k].1} + multiset{m[l].1}
  {
    hide Firsts, Seconds;
    var hi, lo := if k > l then k else l, if k > l then l else k;
    var once := Without(m, hi);
    WithoutPair(m, hi);
    WithoutPair(once, lo);
    assert once[lo] == m[lo];
    rest := Without(once, lo);
  }

  // A device that equals none of list 2 is in no pair.
  lemma NoPartner<T(!new)>(m: seq<(T, T)>, s1: seq<T>, s2: seq<T>, cmp: (T, T) -> int)
    requires Matching(m, s1, s2, cmp) && s1 != [] && forall b :: b in s2 ==> cmp(s1[0], b) != 0
    ensures Matching(m, s1[1..], s2, cmp)
  {
    hide Firsts, Seconds;
    var a := s1[0];
    forall k | 0 <= k < |m| ensures m[k].0 != a {
      PairIn(m, s1, s2, cmp, k);
      assert m[k] in m;
    }
    NotFirst(m, a);
    assert s1 == [a] + s1[1..];
    Shrink(multiset(Firsts(m)), multiset(Firsts(m)), multiset(s1), multiset(s1[1..]), a);
  }

  lemma DiffStep<T>(s1: seq<T>, s2: seq<T>, cmp: (T, T) -> int)
    requires s1 != []
    ensures var i := FirstMatch(s1[0], s2, cmp);
            (|Diff(s1, s2, cmp).pairs|
             == if i == |s2| then |Diff(s1[1..], s2, cmp).pairs| else 1 + |Diff(s1[1..], Without(s2, i), cmp).pairs|)
  {
  }

  // With a rectangular comparison the first match is as good as any.
  lemma {:induction false} FirstMatchIsBest<T(!new)>(s1: seq<T>, s2: seq<T>, cmp: (T, T) -> int, m: seq<(T, T)>)
    requires Rectangular(s1, s2, cmp) && Matching(m, s1, s2, cmp)
    ensures |m| <= |Diff(s1, s2, cmp).pairs|
    decreases |s1|
  {
    hide Matching, Rectangular, Diff;
    if s1 == [] {
      NothingMatches(m, s2, cmp);
    } else {
      var a, i := s1[0], FirstMatch(s1[0], s2, cmp);
      DiffStep(s1, s2, cmp);
      assert s1 == [a] + s1[1..];
      if i == |s2| {
        NoPartner(m, s1, s2, cmp);
        RectangularInside(s1, s2, s1[1..], s2, cmp);
        FirstMatchIsBest(s1[1..], s2, cmp, m);
      } else {
        var rest := Without(s2, i);
        WithoutMultiset(s2, i);
        var m' := Exchange(m, s1, s2, s1[1..], rest, cmp, a, s2[i]);
        RectangularInside(s1, s2, s1[1..], rest, cmp);
        FirstMatchIsBest(s1[1..], rest, cmp, m');
      }
    }
  }

  lemma NothingMatches<T>(m: seq<(T, T)>, s2: seq<T>, cmp: (T, T) -> int)
    requires Matching(m, [], s2, cmp)
    ensures m == []
  {
    PairParts(m);
    assert multiset(Firsts(m)) == multiset{};
    assert |multiset(Firsts(m))| == |Firsts(m)|;
  }

  lemma RectangularInside<T(!new)>(s1: seq<T>, s2: seq<T>, u1: seq<T>, u2: seq<T>, cmp: (T, T) -> int)
    requires Rectangular(s1, s2, cmp) && multiset(u1) <= multiset(s1) && multiset(u2) <= multiset(s2)
    ensures Rectangular(u1, u2, cmp)
  {
    forall x | x in u1 ensures x in s1 { assert x in multiset(u1) && x in multiset(s1); }
    forall x | x in u2 ensures x in s2 { assert x in multiset(u2) && x in multiset(s2); }
  }

  // The diff pairs off all it can, for all parts of two lists in whatever order, exactly
  // when the comparison is rectangular on them.
  lemma PairsAllItCanIff<T(!new)>(s1: seq<T>, s2: seq<T>, cmp: (T, T) -> int)
    ensures Rectangular(s1, s2, cmp)
       <==> forall u1, u2 :: multiset(u1) <= multiset(s1) && multiset(u2) <= multiset(s2) ==> PairsAllItCan(u1, u2, cmp)
  {
    if Rectangular(s1, s2, cmp) {
      forall u1, u2 | multiset(u1) <= multiset(s1) && multiset(u2) <= multiset(s2) ensures PairsAllItCan(u1, u2, cmp) {
        RectangularInside(s1, s2, u1, u2, cmp);
        forall m | Matching(m, u1, u2, cmp) ensures |m| <= |Diff(u1, u2, cmp).pairs| {
          FirstMatchIsBest(u1, u2, cmp, m);
        }
      }
    } else {
      var a, a', b, b' :| a in s1 && a' in s1 && b in s2 && b' in s2
        && cmp(a, b) == 0 && cmp(a, b') == 0 && cmp(a', b) == 0 && cmp(a', b') != 0;
      TwoOf(s1, a, a');
      TwoOf(s2, b, b');
      FirstMatchFails(a, a', b, b', cmp);
    }
  }

  lemma TwoOf<T>(s: seq<T>, a: T, b: T)
    requires a in s && b in s && a != b
    ensures multiset([a, b]) <= multiset(s)
  {
    assert a in multiset(s) && b in multiset(s);
  }

  // Two devices on each side that could all pair off, and of which the diff leaves two.
  lemma FirstMatchFails<T(!new)>(a: T, a': T, b: T, b': T, cmp: (T, T) -> int)
    requires cmp(a, b) == 0 && cmp(a, b') == 0 && cmp(a', b) == 0 && cmp(a', b') != 0
    ensures Diff([a, a'], [b, b'], cmp) == Result([a'], [b'], [(a, b)])
    ensures !PairsAllItCan([a, a'], [b, b'], cmp)
  {
    hide Matching;
    TwoLeft(a, a', b, b', cmp);
    Crossed(a, a', b, b', cmp);
    assert |[(a, b'), (a', b)]| == 2;
  }

  lemma TwoLeft<T>(a: T, a': T, b: T, b': T, cmp: (T, T) -> int)
    requires cmp(a, b) == 0 && cmp(a', b') != 0
    ensures Diff([a, a'], [b, b'], cmp) == Result([a'], [b'], [(a, b)])
  {
    assert [a, a'][1..] == [a'] && [a'][1..] == [] && [b'][1..] == [];
    assert FirstMatch(a, [b, b'], cmp) == 0 && Without([b, b'], 0) == [b'];
    assert FirstMatch(a', [b'], cmp) == 1;
    assert Diff([a'], [b'], cmp) == Result([a'], [b'], []);
  }

  lemma Crossed<T>(a: T, a': T, b: T, b': T, cmp: (T, T) -> int)
    requires cmp(a, b') == 0 && cmp(a', b) == 0
    ensures Matching([(a, b'), (a', b)], [a, a'], [b, b'], cmp)
  {
    var m := [(a, b'), (a', b)];
    PartsConcat([(a, b')], [(a', b)]);
    OnePair((a, b'));
    OnePair((a', b));
    assert m == [(a, b')] + [(a', b)];
    assert Firsts(m) == [a, a'] && Seconds(m) == [b', b];
    assert multiset([b', b]) == multiset([b, b']);
  }

  lemma ClassesAreRectangular<T(!new), K>(s1: seq<T>, s2: seq<T>, cmp: (T, T) -> int, class_: T -> K)
    requires ByClass(s1, s2, cmp, class_)
    ensures Rectangular(s1, s2, cmp)
  {
  }

  // What the device x adds to the result r: it is paired with the first that equals it of
  // what r leaves of list 2, or is left itself.
  ghost predicate Extends<T(!new)>(r: Result<T>, more: Result<T>, cmp: (T, T) -> int, x: T) {
    if forall j :: 0 <= j < |r.left2| ==> cmp(x, r.left2[j]) != 0
    then more == Result(r.left1 + [x], r.left2, r.pairs)
    else exists j :: 0 <= j < |r.left2| && PairsAt(r, more, cmp, x, j)
  }

  ghost predicate PairsAt<T>(r: Result<T>, more: Result<T>, cmp: (T, T) -> int, x: T, j: nat)
    requires j < |r.left2|
  {
    && more == Result(r.left1, r.left2[..j] + r.left2[j + 1..], r.pairs + [(x, r.left2[j])])
    && cmp(x, r.left2[j]) == 0 && forall k :: 0 <= k < j ==> cmp(x, r.left2[k]) != 0
  }

  // This is what one device more in list 1 does. With Diff([], s2) leaving s2, it gives every
  // diff.
  lemma {:induction false} OneMoreDevice<T(!new)>(s1: seq<T>, s2: seq<T>, cmp: (T, T) -> int, x: T)
    ensures Diff([], s2, cmp) == Result([], s2, [])
    ensures Extends(Diff(s1, s2, cmp), Diff(s1 + [x], s2, cmp), cmp, x)
    decreases |s1|
  {
    hide Extends, Diff, Without, FirstMatch;
    NothingToDiff(s2, cmp);
    if s1 == [] {
      assert [] + [x] == [x];
      OneAlone(s2, cmp, x);
    } else {
      var a, i, s := s1[0], FirstMatch(s1[0], s2, cmp), s1 + [x];
      assert s[0] == a && s[1..] == s1[1..] + [x];
      DiffUnfolds(s1, s2, cmp);
      DiffUnfolds(s, s2, cmp);
      var rest := if i == |s2| then s2 else Without(s2, i);
      OneMoreDevice(s1[1..], rest, cmp, x);
      var r, more := Diff(s1[1..], rest, cmp), Diff(s[1..], rest, cmp);
      if i == |s2| { LeftInFront(r, more, cmp, x, a); } else { PairInFront(r, more, cmp, x, (a, s2[i])); }
    }
  }

  lemma NothingToDiff<T>(s2: seq<T>, cmp: (T, T) -> int)
    ensures Diff([], s2, cmp) == Result([], s2, [])
  {
  }

  lemma DiffUnfolds<T>(s1: seq<T>, s2: seq<T>, cmp: (T, T) -> int)
    requires s1 != []
    ensures var i := FirstMatch(s1[0], s2, cmp);
            var r := Diff(s1[1..], if i == |s2| then s2 else Without(s2, i), cmp);
            Diff(s1, s2, cmp)
            == if i == |s2| then Result([s1[0]] + r.left1, r.left2, r.pairs)
               else Result(r.left1, r.left2, [(s1[0], s2[i])] + r.pairs)
  {
  }

  lemma OneAlone<T(!new)>(s2: seq<T>, cmp: (T, T) -> int, x: T)
    ensures Extends(Result([], s2, []), Diff([x], s2, cmp), cmp, x)
  {
    hide Diff;
    var r, i := Result([], s2, []), FirstMatch(x, s2, cmp);
    DiffUnfolds([x], s2, cmp);
    assert [x][1..] == [];
    NothingToDiff(if i == |s2| then s2 else Without(s2, i), cmp);
    if i < |s2| { assert PairsAt(r, Diff([x], s2, cmp), cmp, x, i); }
  }

  lemma LeftInFront<T(!new)>(r: Result<T>, more: Result<T>, cmp: (T, T) -> int, x: T, a: T)
    requires Extends(r, more, cmp, x)
    ensures Extends(Result([a] + r.left1, r.left2, r.pairs), Result([a] + more.left1, more.left2, more.pairs), cmp, x)
  {
    var r', more' := Result([a] + r.left1, r.left2, r.pairs), Result([a] + more.left1, more.left2, more.pairs);
    if forall j :: 0 <= j < |r.left2| ==> cmp(x, r.left2[j]) != 0 {
      assert [a] + (r.left1 + [x]) == [a] + r.left1 + [x];
    } else {
      var j :| 0 <= j < |r.left2| && PairsAt(r, more, cmp, x, j);
      assert PairsAt(r', more', cmp, x, j);
    }
  }

  lemma PairInFront<T(!new)>(r: Result<T>, more: Result<T>, cmp: (T, T) -> int, x: T, p: (T, T))
    requires Extends(r, more, cmp, x)
    ensures Extends(Result(r.left1, r.left2, [p] + r.pairs), Result(more.left1, more.left2, [p] + more.pairs), cmp, x)
  {
    var r', more' := Result(r.left1, r.left2, [p] + r.pairs), Result(more.left1, more.left2, [p] + more.pairs);
    if j :| 0 <= j < |r.left2| && cmp(x, r.left2[j]) == 0 {
      var k :| 0 <= k < |r.left2| && PairsAt(r, more, cmp, x, k);
      assert [p] + (r.pairs + [(x, r.left2[k])]) == [p] + r.pairs + [(x, r.left2[k])];
      assert PairsAt(r', more', cmp, x, k);
    }
  }

  // ------------------------------------------------------------- compareDevice

  // compareDevice does not look at which device comes first.
  lemma CompareIsSymmetric(a: Info, b: Info)
    ensures CompareInfo(a, b) == CompareInfo(b, a)
  {
  }

  // Devices of one class and bus.
  predicate OneKind(a: Info, b: Info) { a.cls == b.cls && a.bus == b.bus }

  // Network devices with one known address.
  predicate OneAddress(a: Info, b: Info) {
    a.cls == 2 && b.cls == 2 && a.private.Some? && b.private.Some? && a.private == b.private
  }

  // A name that tells a device from another one: known, and none of the three generic ones.
  predicate Telling(name: Option<string>) { name.Some? && name.value !in ["eth", "tr", "fddi"] }

  // Names matter only if both are telling, or for two network devices with one address.
  lemma NamelessCompare(a: Info, b: Info)
    requires !Telling(a.device) || !Telling(b.device)
    requires !(OneAddress(a, b) && a.device.Some? && b.device.Some? && a.device != b.device)
    ensures CompareInfo(a, b) == CompareInfo(a.(device := None), b.(device := None))
  {
  }

  // Drivers matter only if both are known.
  lemma DriverlessCompare(a: Info, b: Info)
    requires a.driver == None || b.driver == None
    ensures CompareInfo(a, b) == CompareInfo(a.(driver := None), b.(driver := None))
  {
  }

  // Exactly when each result comes: 1 for another kind, for telling names that differ, and
  // for two addresses under one driver; 2, the driver alone, if nothing before tells them
  // apart; and 0 otherwise. Two network devices with one address and different names are
  // equal, whatever their drivers.
  lemma CompareIs(a: Info, b: Info)
    ensures var renamed := a.device.Some? && b.device.Some? && a.device != b.device;
            var others := Telling(a.device) && Telling(b.device) && a.device != b.device;
            var drivers := a.driver.Some? && b.driver.Some? && a.driver != b.driver;
            var moved := a.cls == 2 && b.cls == 2 && a.private.Some? && b.private.Some? && a.private != b.private;
            && (CompareInfo(a, b) == 2
                <==> OneKind(a, b) && drivers && !(renamed && OneAddress(a, b)) && !others)
            && (CompareInfo(a, b) == 0
                <==> OneKind(a, b) && ((renamed && OneAddress(a, b)) || (!others && !drivers && !moved)))
            && CompareInfo(a, b) in [0, 1, 2]
  {
  }

  // What two devices are compared by: the address where a network device has one, else
  // name and driver.
  function ClassOf(a: Info): Info {
    if a.cls == NETWORK && a.private.Some? then Info(a.cls, a.bus, None, None, a.private)
    else Info(a.cls, a.bus, a.device, a.driver, None)
  }

  // Devices of one class and bus that know the same things about themselves: a name, and
  // not a generic one; a driver; for a network device, an address, which settles the driver.
  predicate Alike(a: Info, b: Info) {
    a.cls == b.cls && a.bus == b.bus ==>
      && a.device.Some? == b.device.Some? && a.driver.Some? == b.driver.Some?
      && (a.cls == NETWORK ==> a.private.Some? == b.private.Some?)
      && (if a.cls == NETWORK && a.private.Some? then a.private == b.private ==> a.driver == b.driver
          else a.device.Some? ==> !Bare(a.device.value) && !Bare(b.device.value))
  }

  // On alike devices compareDevice sorts by class.
  lemma AlikeAreByClass(s1: seq<Info>, s2: seq<Info>)
    requires forall a, b :: a in s1 && b in s2 ==> Alike(a, b)
    ensures ByClass(s1, s2, CompareInfo, ClassOf)
  {
  }

  // Of alike devices the diff leaves exactly the surplus of each class, it pairs off all it
  // can, and it reports no difference exactly when every class is equally frequent.
  lemma AlikeAreDiffed(s1: seq<Info>, s2: seq<Info>)
    requires forall a, b :: a in s1 && b in s2 ==> Alike(a, b)
    ensures var r := Diff(s1, s2, CompareInfo);
            && PairsAllItCan(s1, s2, CompareInfo)
            && (r.left1 == [] && r.left2 == [] <==> forall c :: Count(s1, ClassOf, c) == Count(s2, ClassOf, c))
            && forall c ::
                 var n1, n2 := Count(s1, ClassOf, c), Count(s2, ClassOf, c);
                 && Count(r.left1, ClassOf, c) == (if n1 > n2 then n1 - n2 else 0)
                 && Count(r.left2, ClassOf, c) == (if n2 > n1 then n2 - n1 else 0)
  {
    AlikeAreByClass(s1, s2);
    ClassesAreRectangular(s1, s2, CompareInfo, ClassOf);
    PairsAllItCanIff(s1, s2, CompareInfo);
    NoDifferenceIff(s1, s2, CompareInfo, ClassOf);
    forall c
      ensures var n1, n2, r := Count(s1, ClassOf, c), Count(s2, ClassOf, c), Diff(s1, s2, CompareInfo);
              && Count(r.left1, ClassOf, c) == (if n1 > n2 then n1 - n2 else 0)
              && Count(r.left2, ClassOf, c) == (if n2 > n1 then n2 - n1 else 0)
    {
      SurplusIsLeft(s1, s2, CompareInfo, ClassOf, c);
    }
  }

  function DeviceClass(d: Device): Info { ClassOf(d.info) }

  // So listCompare with compareDevice, on lists of alike devices, reports no difference
  // exactly when every class is equally frequent.
  lemma DeviceListsAgreeIff(list1: seq<Device>, list2: seq<Device>)
    requires forall a, b :: a in list1 && b in list2 ==> Alike(a.info, b.info)
    ensures var r := Diff(list1, list2, CompareDevice);
            r.left1 == [] && r.left2 == []
            <==> forall c :: Count(list1, DeviceClass, c) == Count(list2, DeviceClass, c)
  {
    NoDifferenceIff(list1, list2, CompareDevice, DeviceClass);
  }

  function Card(name: string): Info { Info(NETWORK, 2, Some(name), Some("tulip"), None) }

  // A generic device name matches any name, so compareDevice is not rectangular, and the
  // diff depends on the order: it leaves two of four devices that could all pair off.
  lemma GenericNameMissesAPairing()
    ensures Diff([Card("eth"), Card("eth0")], [Card("eth0"), Card("eth1")], CompareInfo)
         == Result([Card("eth0")], [Card("eth1")], [(Card("eth"), Card("eth0"))])
    ensures !PairsAllItCan([Card("eth"), Card("eth0")], [Card("eth0"), Card("eth1")], CompareInfo)
  {
    assert "eth0"[3] == '0' && "eth1"[3] == '1' && "fddi"[0] == 'f';
    FirstMatchFails(Card("eth"), Card("eth0"), Card("eth0"), Card("eth1"), CompareInfo);
  }

  function Disk(driver: Option<string>): Info { Info(0x1000, 0x80, Some("hda"), driver, None) }

  // So does an absent driver match any driver.
  lemma AbsentDriverMissesAPairing()
    ensures var a, b := Some("aic"), Some("sym");
            && Diff([Disk(None), Disk(a)], [Disk(a), Disk(b)], CompareInfo)
            == Result([Disk(a)], [Disk(b)], [(Disk(None), Disk(a))])
            && !PairsAllItCan([Disk(None), Disk(a)], [Disk(a), Disk(b)], CompareInfo)
  {
    assert "aic"[0] != "sym"[0];
    FirstMatchFails(Disk(None), Disk(Some("aic")), Disk(Some("aic")), Disk(Some("sym")), CompareInfo);
  }
}
