// The modprobe.conf line store: an array of lines, some of them removed, in which the
// last matching alias line counts.
module ModLines {
  import opened Numbering
  import opened Text

  datatype Line = Gone | Kept(text: string)

  datatype Found = NotFound | Found(def: string)

  // Flags to the add and remove functions: CM_REPLACE and CM_COMMENT.
  datatype Flags = Flags(replace: bool, comment: bool)

  const ALIAS: string := "alias "

  // strncmp(s, prefix, strlen(prefix)) == 0
  predicate Starts(s: string, prefix: string) { prefix <= s }

  // *(s + n) is white space; the terminating NUL is not.
  predicate SpaceAt(s: string, n: nat) { n < |s| && IsSpace(s[n]) }

  // What follows "alias" and white space on an alias line.
  function AliasText(line: string): string
    requires Starts(line, ALIAS)
  {
    SkipSpace(line[6..])
  }

  // The line defines the alias.
  predicate Defines(line: Line, alias: string) {
    line.Kept? && Starts(line.text, ALIAS)
    && Starts(AliasText(line.text), alias) && SpaceAt(AliasText(line.text), |alias|)
  }

  // The definition on a line that defines the alias.
  function Definition(line: Line, alias: string): string
    requires Defines(line, alias)
  {
    SkipSpace(AliasText(line.text)[|alias|..])
  }

  // ------------------------------------------------------------ specification

  // getAlias: the last line that defines the alias counts.
  function Lookup(lines: seq<Line>, alias: string): Found {
    if lines == [] then NotFound
    else
      var last := lines[|lines| - 1];
      if Defines(last, alias) then Found(Definition(last, alias))
      else Lookup(lines[..|lines| - 1], alias)
  }

  // What becomes of a line that is removed: a comment, or nothing.
  function Dropped(line: Line, comment: bool): Line
    requires line.Kept?
  {
    if comment then Kept("#" + line.text) else Gone
  }

  function WithoutAlias(lines: seq<Line>, alias: string, comment: bool): (r: seq<Line>)
    ensures |r| == |lines|
  {
    seq(|lines|, i requires 0 <= i < |lines| =>
      if Defines(lines[i], alias) then Dropped(lines[i], comment) else lines[i])
  }

  function WithoutLine(lines: seq<Line>, line: string, comment: bool): (r: seq<Line>)
    ensures |r| == |lines|
  {
    seq(|lines|, i requires 0 <= i < |lines| =>
      if lines[i] == Kept(line) then Dropped(lines[i], comment) else lines[i])
  }

  // The first free slot; |lines| if there is none.
  function Slot(lines: seq<Line>): (i: nat)
    ensures i <= |lines|
    ensures i < |lines| ==> lines[i].Gone?
    ensures forall k :: 0 <= k < i ==> lines[k].Kept?
  {
    if lines == [] || lines[0].Gone? then 0 else 1 + Slot(lines[1..])
  }

  function Put(lines: seq<Line>, line: string): seq<Line> {
    var i := Slot(lines);
    if i < |lines| then lines[i := Kept(line)] else lines + [Kept(line)]
  }

  function PlusLine(lines: seq<Line>, line: string, flags: Flags): seq<Line> {
    Put(if flags.replace || flags.comment then WithoutLine(lines, line, flags.comment) else lines, line)
  }

  function AliasLine(alias: string, def: string): string { ALIAS + alias + " " + def }

  function PlusAlias(lines: seq<Line>, alias: string, def: string, flags: Flags): seq<Line> {
    var cleared := if flags.replace || flags.comment then WithoutAlias(lines, alias, flags.comment) else lines;
    PlusLine(cleared, AliasLine(alias, def), flags)
  }

  // The names the search probes, in a buffer of 128 bytes.
  const BUFFER := 128

  function NumberedAlias(alias: string, x: nat): string { Numbered(alias, x, BUFFER) }

  // The probe of number x ends the search.
  ghost predicate Stops(lines: seq<Line>, alias: string, module_: string, x: nat) {
    var found := Lookup(lines, NumberedAlias(alias, x));
    found == Found(module_) || (x != 0 && found == NotFound)
  }

  // No probe before x ends the search: none is bound to the module, and all but number 0
  // are bound.
  ghost predicate Passed(lines: seq<Line>, alias: string, module_: string, x: nat) {
    && (forall y :: 0 <= y < x ==> Lookup(lines, NumberedAlias(alias, y)) != Found(module_))
    && (forall y :: 1 <= y < x ==> Lookup(lines, NumberedAlias(alias, y)).Found?)
  }

  // The search ends without success at number x.
  ghost predicate GapAt(lines: seq<Line>, alias: string, module_: string, x: nat) {
    x >= 1 && Passed(lines, alias, module_, x) && Lookup(lines, NumberedAlias(alias, x)) == NotFound
  }

  // What isAliased returns: 0 on an exact hit, else the first number bound to the
  // module if no number from 1 on is missing before it, else -1.
  ghost predicate Answer(lines: seq<Line>, alias: string, module_: string, r: int) {
    if Lookup(lines, alias) == Found(module_) then r == 0
    else
      || (r >= 0 && Passed(lines, alias, module_, r) && Lookup(lines, NumberedAlias(alias, r)) == Found(module_))
      || (r == -1 && exists x :: GapAt(lines, alias, module_, x))
  }

  // The search ends; see SearchEndsIff for when it does.
  ghost predicate SearchEnds(lines: seq<Line>, alias: string, module_: string) {
    Lookup(lines, alias) == Found(module_) || exists x: nat :: Stops(lines, alias, module_, x)
  }

  // -------------------------------------------------------------- the program

  class ConfModules {
    var lines: seq<Line>

    constructor ()
      ensures lines == []
    {
      lines := [];
    }

    method RemoveLine(line: string, flags: Flags)
      modifies this
      ensures lines == WithoutLine(old(lines), line, flags.comment)
    {
      for x := 0 to |lines|
        invariant |lines| == |old(lines)|
        invariant forall i :: 0 <= i < |lines| ==>
          lines[i] == if i < x then WithoutLine(old(lines), line, flags.comment)[i] else old(lines)[i]
      {
        if lines[x].Kept? {
          if lines[x].text == line {
            if flags.comment {
              lines := lines[x := Kept("#" + lines[x].text)];
            } else {
              lines := lines[x := Gone];
            }
          }
        }
      }
    }

    method RemoveAlias(alias: string, flags: Flags)
      modifies this
      ensures lines == WithoutAlias(old(lines), alias, flags.comment)
    {
      for x := 0 to |lines|
        invariant |lines| == |old(lines)|
        invariant forall i :: 0 <= i < |lines| ==>
          lines[i] == if i < x then WithoutAlias(old(lines), alias, flags.comment)[i] else old(lines)[i]
      {
        if lines[x].Kept? {
          if Starts(lines[x].text, ALIAS) {
            var tmp := SkipSpace(lines[x].text[6..]);
            if Starts(tmp, alias) && SpaceAt(tmp, |alias|) {
              if flags.comment {
                lines := lines[x := Kept("#" + lines[x].text)];
              } else {
                lines := lines[x := Gone];
              }
            }
          }
        }
      }
    }

    method AddLine(line: string, flags: Flags)
      modifies this
      ensures lines == PlusLine(old(lines), line, flags)
    {
      if flags.replace || flags.comment { RemoveLine(line, flags); }
      var x := 0;
      while x < |lines| && lines[x].Kept?
        invariant x <= |lines| && forall k :: 0 <= k < x ==> lines[k].Kept?
      {
        x := x + 1;
      }
      SlotIs(lines, x);
      if x != |lines| {
        lines := lines[x := Kept(line)];
      } else {
        lines := lines + [Kept(line)];
      }
    }

    method AddAlias(alias: string, def: string, flags: Flags)
      modifies this
      ensures lines == PlusAlias(old(lines), alias, def, flags)
    {
      if flags.replace || flags.comment { RemoveAlias(alias, flags); }
      AddLine("alias " + alias + " " + def, flags);
    }

    method GetAlias(alias: string) returns (ret: Found)
      ensures ret == Lookup(lines, alias)
    {
      ret := NotFound;
      for x := 0 to |lines|
        invariant ret == Lookup(lines[..x], alias)
      {
        assert lines[..x + 1][..x] == lines[..x];
        if lines[x].Kept? {
          if Starts(lines[x].text, ALIAS) {
            var tmp := SkipSpace(lines[x].text[6..]);
            if Starts(tmp, alias) && SpaceAt(tmp, |alias|) {
              tmp := tmp[|alias|..];
              tmp := SkipSpace(tmp);
              ret := Found(tmp);
            }
          }
        }
      }
      assert lines[..|lines|] == lines;
    }

    // isAliased, where it ends.
    method IsAliased(alias: string, module_: string) returns (retval: int)
      requires SearchEnds(lines, alias, module_)
      ensures Answer(lines, alias, module_, retval)
    {
      var modalias := GetAlias(alias);
      if modalias == Found(module_) { return 0; }
      ghost var end: nat :| Stops(lines, alias, module_, end);
      var x := 0;
      while true
        invariant 0 <= x <= end && Passed(lines, alias, module_, x)
        decreases end - x
      {
        modalias := GetAlias(NumberedAlias(alias, x));
        if modalias == Found(module_) { return x; }
        if modalias == NotFound && x != 0 {
          assert GapAt(lines, alias, module_, x);
          return -1;
        }
        x := x + 1;
      }
    }
  }

  lemma SlotIs(lines: seq<Line>, i: nat)
    requires i <= |lines| && (forall k :: 0 <= k < i ==> lines[k].Kept?) && (i < |lines| ==> lines[i].Gone?)
    ensures Slot(lines) == i
  {
    var j := Slot(lines);
    assert j < |lines| ==> lines[j].Gone?;
  }
}
