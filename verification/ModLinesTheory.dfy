// The line store behaves like a map from alias names to definitions, and what the
// numbered search finds.
module ModLinesTheory {
  import opened Common
  import opened ModLines
  import opened Numbering
  import opened Text

  // A name: not empty, no white space.
  predicate Word(s: string) {
    s != [] && forall i :: 0 <= i < |s| ==> !IsSpace(s[i])
  }

  // A definition: it may be empty, but does not start with white space.
  predicate Def(s: string) { s == [] || !IsSpace(s[0]) }

  // A line defines at most one word.
  lemma OneWord(line: Line, m: string, n: string)
    requires Word(m) && Word(n) && Defines(line, m) && Defines(line, n)
    ensures m == n
  {
    var t := AliasText(line.text);
    assert forall i :: 0 <= i < |m| ==> t[i] == m[i] && !IsSpace(t[i]);
    assert forall i :: 0 <= i < |n| ==> t[i] == n[i] && !IsSpace(t[i]);
  }

  lemma AliasLineDefines(n: string, d: string)
    requires Word(n) && Def(d)
    ensures Defines(Kept(AliasLine(n, d)), n) && Definition(Kept(AliasLine(n, d)), n) == d
  {
    var line := AliasLine(n, d);
    assert line == ALIAS + (n + " " + d);
    assert line[6..] == n + " " + d && line[..6] == ALIAS;
    assert SkipSpace(line[6..]) == line[6..];
    var t := AliasText(line);
    assert t[|n|..] == " " + d;
    assert SkipSpace(" " + d) == d by { assert (" " + d)[1..] == d; }
  }

  lemma CommentDefinesNothing(line: Line, comment: bool, m: string)
    requires line.Kept?
    ensures !Defines(Dropped(line, comment), m)
  {
    assert comment ==> ("#" + line.text)[0] == '#' && ALIAS[0] == 'a';
  }

  // Lookup sees only which lines define the name, and their definitions.
  lemma {:induction false} LookupSame(a: seq<Line>, b: seq<Line>, m: string)
    requires |a| == |b|
    requires forall i :: 0 <= i < |a| ==> Defines(a[i], m) == Defines(b[i], m)
    requires forall i :: 0 <= i < |a| && Defines(a[i], m) ==> Definition(a[i], m) == Definition(b[i], m)
    ensures Lookup(a, m) == Lookup(b, m)
  {
    if a != [] { LookupSame(a[..|a| - 1], b[..|b| - 1], m); }
  }

  lemma {:induction false} LookupConcat(a: seq<Line>, b: seq<Line>, m: string)
    ensures Lookup(a + b, m) == if Lookup(b, m) == NotFound then Lookup(a, m) else Lookup(b, m)
  {
    if b == [] {
      assert a + b == a;
    } else {
      assert (a + b)[..|a + b| - 1] == a + b[..|b| - 1];
      LookupConcat(a, b[..|b| - 1], m);
    }
  }

  lemma LookupOne(line: Line, m: string)
    ensures Lookup([line], m) == if Defines(line, m) then Found(Definition(line, m)) else NotFound
  {
    hide Definition, AliasText;
    assert [line][..0] == [];
  }

  lemma GoneDefinesNothing(line: Line, m: string)
    requires line.Gone?
    ensures !Defines(line, m)
  {
  }

  // Writing over a free slot, or behind the last line.
  lemma LookupPut(lines: seq<Line>, text: string, m: string)
    ensures var i := Slot(lines);
            var later := if i < |lines| then Lookup(lines[i + 1..], m) else NotFound;
            Lookup(Put(lines, text), m)
            == if later != NotFound || !Defines(Kept(text), m) then Lookup(lines, m)
               else Found(Definition(Kept(text), m))
  {
    hide Lookup, Defines, Definition, Slot;
    var i := Slot(lines);
    if i < |lines| {
      var pre, post := lines[..i], lines[i + 1..];
      assert lines == pre + [lines[i]] + post;
      assert Put(lines, text) == pre + [Kept(text)] + post;
      LookupBetween(pre, lines[i], post, m);
      LookupBetween(pre, Kept(text), post, m);
      GoneDefinesNothing(lines[i], m);
    } else {
      LookupOne(Kept(text), m);
      LookupConcat(lines, [Kept(text)], m);
    }
  }

  lemma LookupBetween(pre: seq<Line>, line: Line, post: seq<Line>, m: string)
    ensures Lookup(pre + [line] + post, m)
         == if Lookup(post, m) != NotFound then Lookup(post, m)
            else if Defines(line, m) then Found(Definition(line, m)) else Lookup(pre, m)
  {
    hide Lookup, Defines, Definition;
    LookupOne(line, m);
    LookupConcat(pre + [line], post, m);
    LookupConcat(pre, [line], m);
  }

  lemma {:induction false} NoneDefines(lines: seq<Line>, m: string)
    requires forall i :: 0 <= i < |lines| ==> !Defines(lines[i], m)
    ensures Lookup(lines, m) == NotFound
  {
    if lines != [] { NoneDefines(lines[..|lines| - 1], m); }
  }

  lemma LookupWithoutAlias(lines: seq<Line>, n: string, comment: bool, m: string)
    requires Word(n) && Word(m)
    ensures Lookup(WithoutAlias(lines, n, comment), m) == if m == n then NotFound else Lookup(lines, m)
  {
    var r := WithoutAlias(lines, n, comment);
    forall i | 0 <= i < |lines|
      ensures Defines(r[i], m) ==> m != n
      ensures m != n ==> Defines(r[i], m) == Defines(lines[i], m)
      ensures m != n && Defines(r[i], m) ==> r[i] == lines[i]
    {
      if Defines(lines[i], n) {
        CommentDefinesNothing(lines[i], comment, m);
        if Defines(lines[i], m) { OneWord(lines[i], m, n); }
      }
    }
    if m == n { NoneDefines(r, m); } else { LookupSame(r, lines, m); }
  }

  lemma LookupWithoutLine(lines: seq<Line>, n: string, d: string, comment: bool, m: string)
    requires Word(n) && Word(m) && Def(d) && m != n
    ensures Lookup(WithoutLine(lines, AliasLine(n, d), comment), m) == Lookup(lines, m)
  {
    var r := WithoutLine(lines, AliasLine(n, d), comment);
    forall i | 0 <= i < |lines|
      ensures Defines(r[i], m) == Defines(lines[i], m)
      ensures Defines(r[i], m) ==> r[i] == lines[i]
    {
      if lines[i] == Kept(AliasLine(n, d)) {
        CommentDefinesNothing(lines[i], comment, m);
        AliasLineDefines(n, d);
        if Defines(lines[i], m) { OneWord(lines[i], m, n); }
      }
    }
    LookupSame(r, lines, m);
  }

  lemma NoLineLeft(lines: seq<Line>, n: string, d: string, comment: bool)
    requires Word(n) && Def(d)
    ensures var r := WithoutLine(WithoutAlias(lines, n, comment), AliasLine(n, d), comment);
            forall i :: 0 <= i < |r| ==> !Defines(r[i], n)
  {
    var cleared := WithoutAlias(lines, n, comment);
    var r := WithoutLine(cleared, AliasLine(n, d), comment);
    forall i | 0 <= i < |r| ensures !Defines(r[i], n) {
      if Defines(lines[i], n) { CommentDefinesNothing(lines[i], comment, n); }
      if cleared[i].Kept? { CommentDefinesNothing(cleared[i], comment, n); }
    }
  }

  // With CM_REPLACE or CM_COMMENT, adding an alias updates the map: the name gets the
  // new definition, every other name keeps its own, whichever free slot is used.
  lemma AddAliasIsUpdate(lines: seq<Line>, n: string, d: string, flags: Flags, m: string)
    requires Word(n) && Word(m) && Def(d) && (flags.replace || flags.comment)
    ensures Lookup(PlusAlias(lines, n, d, flags), m) == if m == n then Found(d) else Lookup(lines, m)
  {
    var c := flags.comment;
    var r := WithoutLine(WithoutAlias(lines, n, c), AliasLine(n, d), c);
    AliasLineDefines(n, d);
    LookupPut(r, AliasLine(n, d), m);
    if m == n {
      NoLineLeft(lines, n, d, c);
      var i := Slot(r);
      if i < |r| { NoneDefines(r[i + 1..], n); }
    } else {
      LookupWithoutAlias(lines, n, c, m);
      LookupWithoutLine(WithoutAlias(lines, n, c), n, d, c, m);
      if Defines(Kept(AliasLine(n, d)), m) { OneWord(Kept(AliasLine(n, d)), m, n); }
    }
  }

  // Without a flag other names are untouched, but the new definition takes effect
  // exactly when no line behind the slot it lands in gives the name another one.
  lemma PlainAddAlias(lines: seq<Line>, n: string, d: string, flags: Flags, m: string)
    requires Word(n) && Word(m) && Def(d) && !flags.replace && !flags.comment
    ensures var later := if Slot(lines) < |lines| then Lookup(lines[Slot(lines) + 1..], n) else NotFound;
            if m != n then Lookup(PlusAlias(lines, n, d, flags), m) == Lookup(lines, m)
            else Lookup(PlusAlias(lines, n, d, flags), n) == Found(d) <==> (later == NotFound || later == Found(d))
  {
    hide Lookup, AliasLine, Defines, Definition, Slot;
    AliasLineDefines(n, d);
    LookupPut(lines, AliasLine(n, d), m);
    var i := Slot(lines);
    if m != n {
      if Defines(Kept(AliasLine(n, d)), m) { OneWord(Kept(AliasLine(n, d)), m, n); }
    } else if i < |lines| {
      assert lines == lines[..i + 1] + lines[i + 1..];
      LookupConcat(lines[..i + 1], lines[i + 1..], n);
    }
  }

  // It does not when a slot in front of an older line for the name is free.
  lemma OlderLineWins()
    ensures var lines := [Gone, Kept(AliasLine("eth0", "e100"))];
            Lookup(PlusAlias(lines, "eth0", "tulip", Flags(false, false)), "eth0") == Found("e100")
  {
    var older := Kept(AliasLine("eth0", "e100"));
    var lines := [Gone, older];
    AliasLineDefines("eth0", "e100");
    LookupOne(older, "eth0");
    assert lines[1..] == [older] && Slot(lines) == 0;
    LookupPut(lines, AliasLine("eth0", "tulip"), "eth0");
    assert lines == [Gone] + [older];
    LookupConcat([Gone], [older], "eth0");
  }

  // ------------------------------------------------------------- whole runs

  datatype Change = Add(alias: string, def: string, flags: Flags) | Remove(alias: string, flags: Flags)

  function Changed(lines: seq<Line>, c: Change): seq<Line> {
    match c
    case Add(alias, def, flags) => PlusAlias(lines, alias, def, flags)
    case Remove(alias, flags) => WithoutAlias(lines, alias, flags.comment)
  }

  function Run(lines: seq<Line>, changes: seq<Change>): seq<Line>
    decreases |changes|
  {
    if changes == [] then lines else Run(Changed(lines, changes[0]), changes[1..])
  }

  // The change takes effect: an addition without a flag does if no line behind its slot
  // gives the name another definition.
  predicate Effective(lines: seq<Line>, c: Change) {
    && Word(c.alias)
    && (c.Add? ==> Def(c.def))
    && (c.Add? && !c.flags.replace && !c.flags.comment ==>
          var later := if Slot(lines) < |lines| then Lookup(lines[Slot(lines) + 1..], c.alias) else NotFound;
          later == NotFound || later == Found(c.def))
  }

  predicate AllEffective(lines: seq<Line>, changes: seq<Change>)
    decreases |changes|
  {
    changes == [] || (Effective(lines, changes[0]) && AllEffective(Changed(lines, changes[0]), changes[1..]))
  }

  function UpdatedMap(m: map<string, string>, c: Change): map<string, string> {
    match c
    case Add(alias, def, _) => m[alias := def]
    case Remove(alias, _) => m - {alias}
  }

  function Updates(m: map<string, string>, changes: seq<Change>): map<string, string>
    decreases |changes|
  {
    if changes == [] then m else Updates(UpdatedMap(m, changes[0]), changes[1..])
  }

  lemma ChangeIsUpdate(lines: seq<Line>, c: Change, before: map<string, string>, n: string)
    requires Effective(lines, c) && Word(n)
    requires Lookup(lines, n) == if n in before then Found(before[n]) else NotFound
    ensures var after := UpdatedMap(before, c);
            Lookup(Changed(lines, c), n) == if n in after then Found(after[n]) else NotFound
  {
    hide Lookup, PlusAlias, WithoutAlias, Slot, Word, Def;
    match c {
      case Add(alias, def, flags) =>
        if flags.replace || flags.comment { AddAliasIsUpdate(lines, alias, def, flags, n); }
        else {
          PlainAddAlias(lines, alias, def, flags, n);
        }
      case Remove(alias, flags) => LookupWithoutAlias(lines, alias, flags.comment, n);
    }
  }

  // Over every run the store refines the map: lookups after the run are lookups in
  // the updated map.
  lemma {:induction false} StoreRefinesMap(
    lines: seq<Line>, changes: seq<Change>, before: map<string, string>, m: string)
    requires AllEffective(lines, changes) && Word(m)
    requires forall n :: Word(n) ==> Lookup(lines, n) == if n in before then Found(before[n]) else NotFound
    ensures var after := Updates(before, changes);
            Lookup(Run(lines, changes), m) == if m in after then Found(after[m]) else NotFound
    decreases |changes|
  {
    hide Lookup, PlusAlias, WithoutAlias, Slot, Word, Def;
    if changes != [] {
      var c := changes[0];
      var next := Changed(lines, c);
      forall n | Word(n)
        ensures Lookup(next, n)
             == if n in UpdatedMap(before, c) then Found(UpdatedMap(before, c)[n]) else NotFound
      {
        ChangeIsUpdate(lines, c, before, n);
      }
      StoreRefinesMap(next, changes[1..], UpdatedMap(before, c), m);
    }
  }

  // -------------------------------------------------- the numbered search

  function Name(alias: string, x: nat): string { alias + Decimal(x) }

  lemma {:induction false} LongerNumber(m: nat, n: nat)
    requires m <= n
    ensures |Decimal(m)| <= |Decimal(n)|
    decreases n
  {
    if m >= 10 { LongerNumber(m / 10, n / 10); }
  }

  lemma WholeName(alias: string, x: nat, max: nat)
    requires x <= max && |Decimal(max)| <= Space(alias, 128)
    ensures NumberedAlias(alias, x) == Name(alias, x)
  {
    LongerNumber(x, max);
  }

  lemma {:induction false} LookupIndex(lines: seq<Line>, alias: string) returns (i: nat)
    requires Lookup(lines, alias).Found?
    ensures i < |lines| && Defines(lines[i], alias)
  {
    if Defines(lines[|lines| - 1], alias) {
      i := |lines| - 1;
    } else {
      i := LookupIndex(lines[..|lines| - 1], alias);
    }
  }

  // A line defines at most one numbered name.
  lemma OneNumber(line: Line, alias: string, x: nat, y: nat)
    requires Defines(line, Name(alias, x)) && Defines(line, Name(alias, y))
    ensures x == y
  {
    NumberOnLine(line, alias, x);
    NumberOnLine(line, alias, y);
  }

  lemma NumberOnLine(line: Line, alias: string, x: nat)
    requires Defines(line, Name(alias, x))
    ensures |alias| <= |AliasText(line.text)| && Value(AliasText(line.text)[|alias|..], 10, 0) == x
  {
    var t := AliasText(line.text);
    var n := |Name(alias, x)|;
    assert t[..n] == Name(alias, x);
    assert t[|alias|..] == Decimal(x) + t[n..];
    SpaceEnds(t[n]);
    ValueOfDigits(x, 10, t[n..]);
  }

  lemma SpaceEnds(c: char)
    requires IsSpace(c)
    ensures DigitValue(c) >= 10
  {
  }

  function Indices(n: nat): (all: set<int>)
    ensures |all| == n && forall i :: i in all <==> 0 <= i < n
  {
    if n == 0 then {} else Indices(n - 1) + {n - 1}
  }

  // The line defines one of the names with numbers 1 .. n.
  ghost predicate DefinesSome(line: Line, alias: string, n: nat) {
    exists y: nat :: 1 <= y <= n && Defines(line, Name(alias, y))
  }

  ghost predicate AllBound(lines: seq<Line>, alias: string, n: nat) {
    forall y: nat :: 1 <= y <= n ==> Lookup(lines, Name(alias, y)).Found?
  }

  // Numbers 1 .. n can be bound only if there are n lines.
  lemma Pigeonhole(lines: seq<Line>, alias: string, n: nat)
    requires AllBound(lines, alias, n)
    ensures n <= |lines|
  {
    var used := UsedLines(lines, alias, n);
    SubsetSize(used, Indices(|lines|));
  }

  lemma {:induction false} UsedLines(lines: seq<Line>, alias: string, n: nat) returns (used: set<int>)
    requires AllBound(lines, alias, n)
    ensures |used| == n && used <= Indices(|lines|)
    ensures forall i :: i in used ==> DefinesSome(lines[i], alias, n)
  {
    if n == 0 {
      used := {};
    } else {
      var before := UsedLines(lines, alias, n - 1);
      var i := LookupIndex(lines, Name(alias, n));
      NewNumber(lines[i], alias, n);
      used := before + {i};
    }
  }

  lemma NewNumber(line: Line, alias: string, n: nat)
    requires n >= 1 && Defines(line, Name(alias, n))
    ensures !DefinesSome(line, alias, n - 1)
  {
    forall y: nat | 1 <= y <= n - 1 ensures !Defines(line, Name(alias, y)) {
      if Defines(line, Name(alias, y)) { OneNumber(line, alias, n, y); }
    }
  }

  // If the numbers up to one more than there are lines fit the buffer, the search ends by
  // then: numbers without a gap need as many lines.
  lemma SearchEndsWithinLines(lines: seq<Line>, alias: string, module_: string) returns (x: nat)
    requires |Decimal(|lines| + 1)| <= Space(alias, 128)
    ensures x <= |lines| + 1 && Stops(lines, alias, module_, x)
  {
    var n := |lines| + 1;
    if forall y: nat :: y <= n ==> !Stops(lines, alias, module_, y) {
      forall y: nat | 1 <= y <= n ensures Lookup(lines, Name(alias, y)).Found? {
        WholeName(alias, y, n);
        assert !Stops(lines, alias, module_, y);
      }
      Pigeonhole(lines, alias, n);
      assert false;
    }
    x :| x <= n && Stops(lines, alias, module_, x);
  }

  // A prefix that leaves room for d digits: the search ends exactly when some number below
  // ten to the d ends it. One that leaves no room: exactly when the one name it then probes
  // is bound to the module or not at all.
  lemma SearchEndsIff(lines: seq<Line>, alias: string, module_: string)
    requires Lookup(lines, alias) != Found(module_)
    ensures Space(alias, 128) >= 1 ==>
      (SearchEnds(lines, alias, module_)
       <==> exists x: nat :: x < Limit(alias, 128) && Stops(lines, alias, module_, x))
    ensures Space(alias, 128) <= 0 ==>
      (SearchEnds(lines, alias, module_)
       <==> var found := Lookup(lines, alias[..127]); found == Found(module_) || found == NotFound)
  {
    if Space(alias, 128) >= 1 {
      if SearchEnds(lines, alias, module_) {
        var k: nat :| Stops(lines, alias, module_, k);
        var x := WrittenLike(alias, k, BUFFER);
        assert Stops(lines, alias, module_, x);
      }
    } else {
      forall x: nat ensures NumberedAlias(alias, x) == alias[..127] {
        NumberIsHidden(alias, x, BUFFER);
      }
      var hit := Stops(lines, alias, module_, 1);
    }
  }

  // A search that ends without success at x cannot succeed at any r.
  lemma GapExcludes(lines: seq<Line>, alias: string, module_: string, x: nat, r: nat)
    requires GapAt(lines, alias, module_, x)
    ensures !(Passed(lines, alias, module_, r) && Lookup(lines, NumberedAlias(alias, r)) == Found(module_))
  {
    assert x < r && Passed(lines, alias, module_, r) ==> Lookup(lines, NumberedAlias(alias, x)).Found?;
  }

  // There is only one answer.
  lemma AnswerIsUnique(lines: seq<Line>, alias: string, module_: string, r: int, r': int)
    requires Answer(lines, alias, module_, r) && Answer(lines, alias, module_, r')
    ensures r == r'
  {
    forall x, k: nat | GapAt(lines, alias, module_, x)
      ensures !(Passed(lines, alias, module_, k) && Lookup(lines, NumberedAlias(alias, k)) == Found(module_))
    {
      GapExcludes(lines, alias, module_, x, k);
    }
  }

  // modules.h promises the number of a numbered alias. That number x is returned
  // exactly when the unnumbered name does not hit, no smaller number is bound to the
  // module, and no number from 1 to x - 1 is missing.
  lemma NumberIsFoundIff(lines: seq<Line>, alias: string, module_: string, x: nat, r: int)
    requires Answer(lines, alias, module_, r) && x > 0 && Lookup(lines, NumberedAlias(alias, x)) == Found(module_)
    ensures r == x
       <==> && Lookup(lines, alias) != Found(module_)
            && (forall y :: 0 <= y < x ==> Lookup(lines, NumberedAlias(alias, y)) != Found(module_))
            && (forall y :: 1 <= y < x ==> Lookup(lines, NumberedAlias(alias, y)) != NotFound)
  {
    if Lookup(lines, alias) != Found(module_) && Passed(lines, alias, module_, x) {
      assert Answer(lines, alias, module_, x);
      AnswerIsUnique(lines, alias, module_, r, x);
    }
  }

  // So the documented example fails when eth2 is the only alias.
  lemma LoneNumberIsMissed()
    ensures Lookup([Kept("alias eth2 tulip")], NumberedAlias("eth", 2)) == Found("tulip")
    ensures Answer([Kept("alias eth2 tulip")], "eth", "tulip", -1)
  {
    var lines := [Kept("alias eth2 tulip")];
    assert AliasLine("eth2", "tulip") == "alias eth2 tulip";
    AliasLineDefines("eth2", "tulip");
    LookupOne(lines[0], "eth2");
    EthNames();
    OthersAreUnbound("eth");
    OthersAreUnbound(NumberedAlias("eth", 0));
    OthersAreUnbound(NumberedAlias("eth", 1));
    assert Passed(lines, "eth", "tulip", 1);
    assert GapAt(lines, "eth", "tulip", 1);
  }

  lemma EthNames()
    ensures NumberedAlias("eth", 2) == "eth2"
    ensures Word("eth") && Word(NumberedAlias("eth", 0)) && Word(NumberedAlias("eth", 1))
    ensures NumberedAlias("eth", 0) != "eth2" && NumberedAlias("eth", 1) != "eth2"
  {
    WholeName("eth", 0, 2);
    WholeName("eth", 1, 2);
    WholeName("eth", 2, 2);
    assert Name("eth", 0)[3] == '0' && Name("eth", 1)[3] == '1' && "eth2"[3] == '2';
  }

  lemma OthersAreUnbound(m: string)
    requires Word(m) && m != "eth2"
    ensures Lookup([Kept("alias eth2 tulip")], m) == NotFound
  {
    var line := Kept("alias eth2 tulip");
    assert AliasLine("eth2", "tulip") == "alias eth2 tulip";
    AliasLineDefines("eth2", "tulip");
    LookupOne(line, m);
    if Defines(line, m) { OneWord(line, m, "eth2"); }
  }

  // With a name that fills the buffer, bound to another module, the search does not end.
  lemma LongAliasNeverEnds(alias: string)
    requires |alias| == 128 && alias[..127] != alias && Word(alias)
    ensures var lines := [Kept(AliasLine(alias[..127], "tulip"))];
            Lookup(lines, alias) == NotFound && !SearchEnds(lines, alias, "e100")
  {
    var short := alias[..127];
    var line := Kept(AliasLine(short, "tulip"));
    AliasLineDefines(short, "tulip");
    LookupOne(line, short);
    LookupOne(line, alias);
    if Defines(line, alias) { OneWord(line, short, alias); }
    SearchEndsIff([line], alias, "e100");
    assert "tulip"[0] != "e100"[0];
  }
}
