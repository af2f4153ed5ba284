// The lines of modprobe.conf as text: which of them bind a name, and what the changes
// leave of them.
module ModLinesText {
  import opened ModLines
  import opened ModLinesTheory
  import opened Text

  // White space of the C locale.
  predicate Blank(c: char) {
    c == ' ' || c == '\t' || c == '\n' || c == '\r' || c == 11 as char || c == 12 as char
  }

  predicate AllBlank(s: string) { forall i :: 0 <= i < |s| ==> Blank(s[i]) }

  // The text of an alias line for n, its parts told apart.
  predicate Bound(text: string, ws: string, n: string, c: char, gap: string, d: string) {
    text == "alias " + ws + n + [c] + gap + d && AllBlank(ws) && Blank(c) && AllBlank(gap)
  }

  // A line binds the word n to d, which does not start with white space, exactly when it
  // has this form.
  lemma DefinesIff(text: string, n: string, d: string)
    requires Word(n) && Def(d)
    ensures Defines(Kept(text), n) && Definition(Kept(text), n) == d
       <==> exists ws, c, gap :: Bound(text, ws, n, c, gap, d)
  {
    hide Defines, Definition, Bound;
    if Defines(Kept(text), n) && Definition(Kept(text), n) == d {
      var ws, c, gap := DefinesBound(text, n, d);
    }
    if ws, c, gap :| Bound(text, ws, n, c, gap, d) { BoundDefines(text, ws, n, c, gap, d); }
  }

  lemma DefinesBound(text: string, n: string, d: string) returns (ws: string, c: char, gap: string)
    requires Word(n) && Def(d) && Defines(Kept(text), n) && Definition(Kept(text), n) == d
    ensures Bound(text, ws, n, c, gap, d)
  {
    hide SkipSpace;
    var t := AliasText(text);
    ws := SplitSpace(text[6..]);
    c := t[|n|];
    var tail := t[|n| + 1..];
    assert t[|n|..] == [c] + tail;
    gap := SplitSpace(tail);
    AfterSpace(c, tail);
    assert t == n + ([c] + tail);
    assert text == "alias " + text[6..];
    assert n + ([c] + (gap + d)) == n + [c] + gap + d;
    assert "alias " + (ws + (n + [c] + gap + d)) == "alias " + ws + n + [c] + gap + d;
  }

  lemma AfterSpace(c: char, s: string)
    requires IsSpace(c)
    ensures SkipSpace([c] + s) == SkipSpace(s)
  {
    assert ([c] + s)[1..] == s;
  }

  lemma BoundDefines(text: string, ws: string, n: string, c: char, gap: string, d: string)
    requires Word(n) && Def(d) && Bound(text, ws, n, c, gap, d)
    ensures Defines(Kept(text), n) && Definition(Kept(text), n) == d
  {
    var t := n + [c] + gap + d;
    assert text == "alias " + (ws + t);
    assert text[6..] == ws + t && text[..6] == "alias ";
    assert t[0] == n[0];
    SkipSpaceIs(ws, t);
    assert AliasText(text) == t && t[..|n|] == n && t[|n|] == c;
    assert t[|n|..] == ([c] + gap) + d;
    SkipSpaceIs([c] + gap, d);
  }

  // What SkipSpace skips.
  lemma {:induction false} SplitSpace(s: string) returns (ws: string)
    ensures s == ws + SkipSpace(s) && AllBlank(ws) && Def(SkipSpace(s))
    decreases |s|
  {
    if s != "" && IsSpace(s[0]) {
      var rest := SplitSpace(s[1..]);
      ws := [s[0]] + rest;
      assert s == [s[0]] + s[1..];
    } else {
      ws := "";
    }
  }

  // ------------------------------------------------------------- what changes

  // A line that an addition or removal of n takes out: it defines n, or it is the very line
  // that is to be added.
  predicate Hit(line: Line, n: string, text: string) {
    line.Kept? && (Defines(line, n) || line.text == text)
  }

  // A line that is taken out becomes a comment, or a free slot.
  function TakenOut(line: Line, comment: bool): Line
    requires line.Kept?
  {
    if comment then Kept("#" + line.text) else Gone
  }

  // Removing an alias: the lines that define it are taken out, all others stay as they are.
  lemma RemoveAliasText(lines: seq<Line>, n: string, comment: bool)
    ensures var r := WithoutAlias(lines, n, comment);
            && |r| == |lines|
            && forall i :: 0 <= i < |lines| ==>
                 r[i] == if Defines(lines[i], n) then TakenOut(lines[i], comment) else lines[i]
  {
  }

  // s is where a line goes: the first free slot, or the end.
  predicate Lands(lines: seq<Line>, s: nat) {
    s <= |lines| && (s < |lines| ==> lines[s].Gone?) && forall i :: 0 <= i < s ==> lines[i].Kept?
  }

  // Adding an alias: with a flag the lines for it are taken out first; the new line goes to
  // the first slot that is then free, or to the end; all other lines stay as they are.
  lemma AddAliasText(lines: seq<Line>, n: string, d: string, flags: Flags) returns (cleared: seq<Line>, s: nat)
    ensures |cleared| == |lines| && Lands(cleared, s)
    ensures forall i {:trigger cleared[i]} :: 0 <= i < |lines| ==>
      cleared[i] == if (flags.replace || flags.comment) && Hit(lines[i], n, "alias " + n + " " + d)
                    then TakenOut(lines[i], flags.comment) else lines[i]
    ensures var r := PlusAlias(lines, n, d, flags);
            && |r| == (if s < |lines| then |lines| else |lines| + 1)
            && r[s] == Kept("alias " + n + " " + d)
            && forall i :: 0 <= i < |lines| && i != s ==> r[i] == cleared[i]
  {
    var text := AliasLine(n, d);
    assert text == "alias " + n + " " + d;
    if flags.replace || flags.comment {
      cleared := WithoutLine(WithoutAlias(lines, n, flags.comment), text, flags.comment);
      forall i | 0 <= i < |lines|
        ensures cleared[i] == if Hit(lines[i], n, text) then TakenOut(lines[i], flags.comment) else lines[i]
      {
        if Defines(lines[i], n) { assert ("#" + lines[i].text)[0] == '#' && text[0] == 'a'; }
      }
    } else {
      cleared := lines;
    }
    s := Slot(cleared);
  }
}
