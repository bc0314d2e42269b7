/** The line formatter of the generators: nested lists of text become indented lines. */
module FormatLines {
  import opened Sequences

  datatype Item = Text(text: string) | Block(items: seq<Item>)

  const NEWLINE: char := '\n'

  /** `split('\n')`: never empty. */
  function Split(s: string): (lines: seq<string>)
    ensures lines != []
  {
    if s == [] then [[]]
    else
      var rest := Split(s[1..]);
      if s[0] == NEWLINE then [[]] + rest else [[s[0]] + rest[0]] + rest[1..]
  }

  /** `join('\n')`. */
  function Join(lines: seq<string>): string {
    if lines == [] then []
    else if |lines| == 1 then lines[0]
    else lines[0] + [NEWLINE] + Join(lines[1..])
  }

  function Spaces(indent: nat): string {
    if indent == 0 then "" else "    " + Spaces(indent - 1)
  }

  /** Pads one line; an empty line stays empty. */
  function Pad(indent: nat, line: string): string {
    if line == "" then "" else Spaces(indent) + line
  }

  function PadAll(indent: nat, lines: seq<string>): (r: seq<string>)
    ensures |r| == |lines|
  {
    seq(|lines|, i requires 0 <= i < |lines| => Pad(indent, lines[i]))
  }

  /** `indentEach`: the lines of a nested list, each level one indentation deeper. */
  function IndentEach(indent: nat, items: seq<Item>): seq<string>
    decreases items
  {
    if items == [] then []
    else
      (match items[0]
       case Text(text) => PadAll(indent, Split(text))
       case Block(inner) => IndentEach(indent + 1, inner))
      + IndentEach(indent, items[1..])
  }

  /** `formatLines`. */
  function Format(items: seq<Item>): string {
    Join(IndentEach(0, items)) + [NEWLINE]
  }

  /** Whether some text occurs at any depth. */
  predicate HasText(items: seq<Item>) {
    items != [] && (match items[0]
                    case Text(_) => true
                    case Block(inner) => HasText(inner) || HasText(items[1..]))
  }

  ghost predicate IsLine(s: string) {
    NEWLINE !in s
  }

  ghost predicate AllLines(lines: seq<string>) {
    forall i :: 0 <= i < |lines| ==> IsLine(lines[i])
  }

  // ----- split and join

  lemma {:induction false} SplitLines(s: string)
    ensures AllLines(Split(s)) && Join(Split(s)) == s
  {
    if s != [] {
      SplitLines(s[1..]);
      var rest := Split(s[1..]);
      if s[0] == NEWLINE {
        assert ([[]] + rest)[1..] == rest;
      } else {
        var lines := [[s[0]] + rest[0]] + rest[1..];
        if |rest| > 1 {
          assert lines[1..] == rest[1..];
          assert Join(lines) == [s[0]] + Join(rest);
        }
      }
      assert s == [s[0]] + s[1..];
    }
  }

  /** Splitting at a newline splits the rest independently. */
  lemma {:induction false} SplitAtNewline(line: string, rest: string)
    requires IsLine(line)
    ensures Split(line + [NEWLINE] + rest) == [line] + Split(rest)
  {
    var s := line + [NEWLINE] + rest;
    if line == [] {
      assert s[1..] == rest;
    } else {
      assert s[1..] == line[1..] + [NEWLINE] + rest;
      SplitAtNewline(line[1..], rest);
      assert ([line[1..]] + Split(rest))[1..] == Split(rest);
      assert [s[0]] + line[1..] == line;
    }
  }

  /** Joined lines with a final newline split into the same lines and one empty line after. */
  lemma {:induction false} SplitJoin(lines: seq<string>)
    requires AllLines(lines) && lines != []
    ensures Split(Join(lines) + [NEWLINE]) == lines + [""]
  {
    assert Split("") == [""];
    if |lines| == 1 {
      SplitAtNewline(lines[0], []);
      assert lines[0] + [NEWLINE] + [] == Join(lines) + [NEWLINE];
    } else {
      SplitJoin(lines[1..]);
      SplitAtNewline(lines[0], Join(lines[1..]) + [NEWLINE]);
      assert lines[0] + [NEWLINE] + (Join(lines[1..]) + [NEWLINE]) == Join(lines) + [NEWLINE];
      assert lines == [lines[0]] + lines[1..];
    }
  }

  // ----- indentation

  lemma {:induction false} SpacesAdd(d: nat, e: nat)
    ensures Spaces(d + e) == Spaces(d) + Spaces(e)
    ensures IsLine(Spaces(d))
  {
    if d > 0 {
      SpacesAdd(d - 1, e);
    }
  }

  lemma PadLine(indent: nat, line: string)
    requires IsLine(line)
    ensures IsLine(Pad(indent, line))
    ensures Pad(indent, line) == "" <==> line == ""
  {
    SpacesAdd(indent, 0);
  }

  /** Padding is additive, and empty lines stay empty. */
  lemma PadAdd(d: nat, e: nat, line: string)
    ensures Pad(d + e, line) == Pad(d, Pad(e, line))
  {
    SpacesAdd(d, e);
    assert Spaces(d + e) + line == Spaces(d) + (Spaces(e) + line);
  }

  lemma PadAllAdd(d: nat, e: nat, lines: seq<string>)
    ensures PadAll(d + e, lines) == PadAll(d, PadAll(e, lines))
  {
    forall i | 0 <= i < |lines|
      ensures PadAll(d + e, lines)[i] == PadAll(d, PadAll(e, lines))[i]
    {
      PadAdd(d, e, lines[i]);
    }
  }

  lemma PadAllAppend(d: nat, a: seq<string>, b: seq<string>)
    ensures PadAll(d, a + b) == PadAll(d, a) + PadAll(d, b)
  {
  }

  /** Emitting a tree deeper by `d` pads the lines it has. */
  lemma {:induction false} IndentShifts(d: nat, e: nat, items: seq<Item>)
    ensures IndentEach(d + e, items) == PadAll(d, IndentEach(e, items))
    decreases items
  {
    if items != [] {
      var rest := IndentEach(e, items[1..]);
      IndentShifts(d, e, items[1..]);
      match items[0] {
        case Text(text) =>
          PadAllAdd(d, e, Split(text));
          PadAllAppend(d, PadAll(e, Split(text)), rest);
        case Block(inner) =>
          IndentShifts(d, e + 1, inner);
          PadAllAppend(d, IndentEach(e + 1, inner), rest);
      }
    }
  }

  lemma {:induction false} IndentLines(indent: nat, items: seq<Item>)
    ensures AllLines(IndentEach(indent, items))
    ensures IndentEach(indent, items) != [] <==> HasText(items)
    decreases items
  {
    if items != [] {
      IndentLines(indent, items[1..]);
      match items[0] {
        case Text(text) =>
          var lines := Split(text);
          SplitLines(text);
          forall i | 0 <= i < |lines|
            ensures IsLine(PadAll(indent, lines)[i])
          {
            PadLine(indent, lines[i]);
          }
        case Block(inner) =>
          IndentLines(indent + 1, inner);
      }
    }
  }

  lemma {:induction false} SpacesWidth(d: nat)
    ensures |Spaces(d)| == 4 * d && forall i :: 0 <= i < 4 * d ==> Spaces(d)[i] == ' '
  {
    if d > 0 {
      SpacesWidth(d - 1);
    }
  }

  /** Every line emitted at depth `d` is empty, or four spaces a level and then the line that
      depth 0 would give. */
  lemma IndentedByDepth(d: nat, items: seq<Item>, i: nat)
    requires i < |IndentEach(d, items)|
    ensures |IndentEach(0, items)| == |IndentEach(d, items)|
    ensures var line, flat := IndentEach(d, items)[i], IndentEach(0, items)[i];
            if flat == "" then line == ""
            else |line| == 4 * d + |flat| && line[4 * d..] == flat && forall k :: 0 <= k < 4 * d ==> line[k] == ' '
  {
    IndentShifts(d, 0, items);
    SpacesWidth(d);
  }

  /** Lists are emitted one after the other. */
  lemma {:induction false} IndentAppend(indent: nat, a: seq<Item>, b: seq<Item>)
    ensures IndentEach(indent, a + b) == IndentEach(indent, a) + IndentEach(indent, b)
  {
    if a == [] {
      assert a + b == b;
    } else {
      assert (a + b)[1..] == a[1..] + b;
      IndentAppend(indent, a[1..], b);
    }
  }

  /** A text at depth 0 is emitted as it stands, whatever lines it holds. */
  lemma TextUnchanged(text: string)
    ensures Join(IndentEach(0, [Text(text)])) == text
    ensures Format([Text(text)]) == text + [NEWLINE]
  {
    SplitLines(text);
    var lines := Split(text);
    forall i | 0 <= i < |lines|
      ensures PadAll(0, lines)[i] == lines[i]
    {
      assert Spaces(0) + lines[i] == lines[i];
    }
    var items := [Text(text)];
    assert items[1..] == [] && PadAll(0, lines) == lines;
    assert IndentEach(0, items) == PadAll(0, Split(text)) + [] == lines;
  }

  // ----- formatting is compositional

  /** Formatted text emitted as one leaf at depth `d` gives the lines of its tree at depth `d`
      and one empty line, exactly when the tree holds some text. */
  lemma FormattedLeaf(d: nat, items: seq<Item>)
    ensures IndentEach(d, [Text(Format(items))]) == IndentEach(d, items) + [""] <==> HasText(items)
  {
    var leaf := PadAll(d, Split(Format(items)));
    assert IndentEach(d, [Text(Format(items))]) == leaf + IndentEach(d, []) == leaf;
    IndentLines(d, items);
    if HasText(items) {
      FormattedLines(d, items);
    } else {
      IndentLines(0, items);
      SplitAtNewline("", "");
      assert Format(items) == "" + [NEWLINE] + "";
      assert |leaf| == 2;
    }
  }

  lemma FormattedLines(d: nat, items: seq<Item>)
    requires HasText(items)
    ensures PadAll(d, Split(Format(items))) == IndentEach(d, items) + [""]
  {
    var lines := IndentEach(0, items);
    IndentLines(0, items);
    SplitJoin(lines);
    PadAllAppend(d, lines, [""]);
    IndentShifts(d, 0, items);
    assert PadAll(d, [""]) == [""];
  }

  /** Formatting a part of a list beforehand adds one empty line after the part and changes
      nothing else, wherever the part stands and however deep. */
  lemma FormattedPart(d: nat, before: seq<Item>, part: seq<Item>, after: seq<Item>)
    requires HasText(part)
    ensures IndentEach(d, before + [Text(Format(part))] + after)
            == IndentEach(d, before) + IndentEach(d, part) + [""] + IndentEach(d, after)
  {
    FormattedLeaf(d, part);
    var leaf := [Text(Format(part))];
    IndentAppend(d, before + leaf, after);
    IndentAppend(d, before, leaf);
    ConcatAssociates(IndentEach(d, before), IndentEach(d, part), [""]);
  }

  /** Nesting a part pads its lines by one level, wherever the part stands. */
  lemma NestedPart(d: nat, before: seq<Item>, part: seq<Item>, after: seq<Item>)
    ensures IndentEach(d, before + [Block(part)] + after)
            == IndentEach(d, before) + PadAll(1, IndentEach(d, part)) + IndentEach(d, after)
  {
    var block := [Block(part)];
    IndentAppend(d, before + block, after);
    IndentAppend(d, before, block);
    assert IndentEach(d, block) == PadAll(1, IndentEach(d, part)) by {
      IndentShifts(1, d, part);
      assert IndentEach(d, block) == IndentEach(d + 1, part) + IndentEach(d, []);
    }
  }

  /** The text of a formatted tree reads back as exactly its lines. */
  lemma FormatReadsBack(items: seq<Item>)
    requires HasText(items)
    ensures Split(Format(items)) == IndentEach(0, items) + [""]
    ensures Format([Text(Format(items))]) == Format(items) + [NEWLINE]
  {
    IndentLines(0, items);
    var lines := IndentEach(0, items);
    SplitJoin(lines);
    FormattedLeaf(0, items);
    JoinEmptyLast(lines);
  }

  lemma {:induction false} JoinEmptyLast(lines: seq<string>)
    requires lines != []
    ensures Join(lines + [""]) == Join(lines) + [NEWLINE]
  {
    if |lines| == 1 {
      assert (lines + [""])[1..] == [""];
    } else {
      JoinEmptyLast(lines[1..]);
      assert (lines + [""])[1..] == lines[1..] + [""];
      var head := lines[0] + [NEWLINE];
      assert head + (Join(lines[1..]) + [NEWLINE]) == head + Join(lines[1..]) + [NEWLINE];
    }
  }
}
