// What several modules share.
module Common {

  datatype Option<+T> = None | Some(value: T)

  ghost predicate Distinct<T>(s: seq<T>) {
    forall i, j :: 0 <= i < j < |s| ==> s[i] != s[j]
  }

  // The interface names that stand for "some device of this kind".
  predicate Bare(name: string) { name == "eth" || name == "tr" || name == "fddi" }

  // Division with remainder.
  lemma DivMod(n: nat, b: nat)
    requires b > 0
    ensures n / b * b + n % b == n && n % b < b
  {
  }

  lemma {:induction false} SubsetSize<T>(a: set<T>, b: set<T>)
    requires a <= b
    ensures |a| <= |b|
    decreases a
  {
    if a != {} {
      var x :| x in a;
      SubsetSize(a - {x}, b - {x});
    }
  }
}
