/**
 * The human-readable report, as the list of lines it prints (joined with
 * newlines by the caller): a fixed sentinel when nothing changed; otherwise,
 * per change, a header, one line per added name, one per removed name, one
 * per type change and a blank separator, then a closing total. Every field
 * taken from the data is HTML-escaped, so only the template adds markup.
 */
module Report {
  import opened Text
  import opened Html
  import opened Diff
  import Extract

  /** The only line printed when there is nothing to report. */
  const Sentinel: string := "\U{2728} No oracle changes today!"

  const PlusMark: string := "\U{2795}"
  const MinusMark: string := "\U{2796}"

  function Header(c: Change): string
  {
    "\U{1F6E0}\U{FE0F} <b>Protocol " + Escape(c.name) + "</b> (id <code>" + Escape(c.id)
    + "</code>) on <i>" + Escape(c.file) + "</i> has the following changes:"
  }

  /** The line of one added or removed name, after its mark. */
  function NameLine(mark: string, n: string): string
  {
    "  " + mark + " <b>" + Escape(n) + "</b>"
  }

  /** An empty type prints as `(none)`. */
  function OrNone(s: string): string
  {
    if s == "" then "(none)" else s
  }

  function TypeLine(t: TypeChange): string
  {
    "  \U{1F504} <b>" + Escape(t.name) + "</b> (type: <code>" + Escape(OrNone(t.oldType))
    + "</code> \U{2192} <code>" + Escape(OrNone(t.newType)) + "</code>)"
  }

  const TotalLabel: string := "\U{1F4CC} Total protocols with oracle changes: "

  function TotalLine(count: nat): string
  {
    TotalLabel + Decimal(count)
  }

  /** One line per name, in order. */
  function NameLines(mark: string, names: seq<string>): (r: seq<string>)
    ensures |r| == |names|
  {
    if names == [] then []
    else NameLines(mark, names[..|names| - 1]) + [NameLine(mark, names[|names| - 1])]
  }

  /** One line per type change, in order. */
  function TypeLines(types: seq<TypeChange>): (r: seq<string>)
    ensures |r| == |types|
  {
    if types == [] then []
    else TypeLines(types[..|types| - 1]) + [TypeLine(types[|types| - 1])]
  }

  /** The block of one change: header, additions, removals, type changes, blank line. */
  function ChangeLines(c: Change): seq<string>
  {
    [Header(c)] + NameLines(PlusMark, c.plus) + NameLines(MinusMark, c.minus) + TypeLines(c.types) + [""]
  }

  /** The pieces `f` gives for each element, one after the other. */
  function Concat<X, T>(f: X -> seq<T>, xs: seq<X>): seq<T>
  {
    if xs == [] then [] else Concat(f, xs[..|xs| - 1]) + f(xs[|xs| - 1])
  }

  /** The blocks of all changes, in order. */
  function Blocks(cs: seq<Change>): seq<string>
  {
    Concat(ChangeLines, cs)
  }

  /** `print_human`, as the lines it prints. */
  function HumanLines(cs: seq<Change>): seq<string>
  {
    if cs == [] then [Sentinel] else Blocks(cs) + [TotalLine(|cs|)]
  }

  /** The number of lines the blocks take: two per change plus one per listed item. */
  function LineCount(cs: seq<Change>): nat
  {
    if cs == [] then 0
    else
      var c := cs[|cs| - 1];
      LineCount(cs[..|cs| - 1]) + 2 + |c.plus| + |c.minus| + |c.types|
  }

  lemma {:induction false} BlocksLength(cs: seq<Change>)
    ensures |Blocks(cs)| == LineCount(cs)
  {
    if cs != [] {
      BlocksLength(cs[..|cs| - 1]);
    }
  }

  /**
   * The sentinel is printed exactly when there is nothing to report;
   * otherwise the report has one line per block line plus the total, which
   * comes last and carries the number of changes.
   */
  lemma HumanLinesShape(cs: seq<Change>)
    ensures HumanLines(cs) == [Sentinel] <==> cs == []
    ensures cs != [] ==> |HumanLines(cs)| == LineCount(cs) + 1
    ensures cs != [] ==> HumanLines(cs)[|HumanLines(cs)| - 1] == TotalLine(|cs|)
  {
    BlocksLength(cs);
    if cs != [] {
      var lines := HumanLines(cs);
      assert |lines| >= 3 by {
        assert LineCount(cs) >= 2;
      }
    }
  }

  /** The closing line is the label followed by the digits of the count. */
  lemma TotalLineCount(count: nat)
    ensures var line := TotalLine(count);
            |line| > |TotalLabel| && line[..|TotalLabel|] == TotalLabel
            && DigitsValue(line[|TotalLabel|..]) == count
  {
    var line := TotalLine(count);
    assert line[|TotalLabel|..] == Decimal(count);
    DecimalValue(count);
  }

  /** Comparing a dataset with itself prints only the sentinel. */
  lemma UnchangedPrintsSentinel(d: Extract.Dataset)
    ensures HumanLines(DiffSpec(d, d)) == [Sentinel]
  {
    DiffSelf(d);
  }

  /** `part` occurs in `whole` at position `start`. */
  ghost predicate Within<T>(whole: seq<T>, start: nat, part: seq<T>)
  {
    start + |part| <= |whole| && whole[start..start + |part|] == part
  }

  /** Each element's piece lies in the whole, right after the pieces of the elements before it. */
  lemma {:induction false} ConcatInOrder<X, T>(f: X -> seq<T>, xs: seq<X>, i: nat)
    requires i < |xs|
    ensures Within(Concat(f, xs), |Concat(f, xs[..i])|, f(xs[i]))
  {
    var init := xs[..|xs| - 1];
    if i == |xs| - 1 {
      assert xs[..i] == init;
    } else {
      assert init[..i] == xs[..i] && init[i] == xs[i];
      ConcatInOrder(f, init, i);
    }
  }

  /** Each change's block lies in the report, in order, right after the blocks of the changes before it. */
  lemma BlocksInOrder(cs: seq<Change>, i: nat)
    requires i < |cs|
    ensures Within(Blocks(cs), |Blocks(cs[..i])|, ChangeLines(cs[i]))
  {
    ConcatInOrder(ChangeLines, cs, i);
  }

  /** The five parts of a concatenation, each at its offset. */
  lemma FiveParts<T>(h: seq<T>, p: seq<T>, m: seq<T>, t: seq<T>, z: seq<T>)
    ensures var w := h + p + m + t + z;
            && Within(w, 0, h) && Within(w, |h|, p) && Within(w, |h| + |p|, m)
            && Within(w, |h| + |p| + |m|, t) && Within(w, |h| + |p| + |m| + |t|, z)
  {
  }

  /**
   * A block is the header, then the lines of the added names, of the
   * removed names and of the type changes, each group in its list's order,
   * then the blank separator.
   */
  lemma ChangeLinesFrame(c: Change)
    ensures |ChangeLines(c)| == 2 + |c.plus| + |c.minus| + |c.types|
    ensures ChangeLines(c)[0] == Header(c)
    ensures Within(ChangeLines(c), 1, NameLines(PlusMark, c.plus))
    ensures Within(ChangeLines(c), 1 + |c.plus|, NameLines(MinusMark, c.minus))
    ensures Within(ChangeLines(c), 1 + |c.plus| + |c.minus|, TypeLines(c.types))
    ensures ChangeLines(c)[|ChangeLines(c)| - 1] == ""
  {
    FiveParts([Header(c)], NameLines(PlusMark, c.plus), NameLines(MinusMark, c.minus), TypeLines(c.types), [""]);
  }

  lemma {:induction false} NameLinesAt(mark: string, names: seq<string>, j: nat)
    requires j < |names|
    ensures NameLines(mark, names)[j] == NameLine(mark, names[j])
  {
    if j < |names| - 1 {
      NameLinesAt(mark, names[..|names| - 1], j);
    }
  }

  /** How often `ch` occurs in `s`. */
  function Occurrences(ch: char, s: string): nat
  {
    if s == [] then 0 else Occurrences(ch, s[..|s| - 1]) + (if s[|s| - 1] == ch then 1 else 0)
  }

  lemma {:induction false} OccurrencesAppend(ch: char, a: string, b: string)
    ensures Occurrences(ch, a + b) == Occurrences(ch, a) + Occurrences(ch, b)
    decreases |b|
  {
    if b == [] {
      assert a + b == a;
    } else {
      assert (a + b)[..|a + b| - 1] == a + b[..|b| - 1];
      OccurrencesAppend(ch, a, b[..|b| - 1]);
    }
  }

  lemma {:induction false} OccurrencesNone(ch: char, s: string)
    requires forall k :: 0 <= k < |s| ==> s[k] != ch
    ensures Occurrences(ch, s) == 0
  {
    if s != [] {
      OccurrencesNone(ch, s[..|s| - 1]);
    }
  }

  /** An escaped field holds none of the four markup characters. */
  lemma EscapedHasNoMarkup(ch: char, s: string)
    requires ch in "<>\"'"
    ensures Occurrences(ch, Escape(s)) == 0
  {
    EscapeRemovesMarkup(s);
    OccurrencesNone(ch, Escape(s));
  }

  /**
   * Whatever the name, id and file, a header holds the same number of each
   * markup character: the data cannot open or close a tag.
   */
  lemma HeaderMarkupFixed(ch: char, c: Change, d: Change)
    requires ch in "<>\"'"
    ensures Occurrences(ch, Header(c)) == Occurrences(ch, Header(d))
  {
    HeaderMarkup(ch, c);
    HeaderMarkup(ch, d);
  }

  lemma HeaderMarkup(ch: char, c: Change)
    requires ch in "<>\"'"
    ensures Occurrences(ch, Header(c))
            == Occurrences(ch, "\U{1F6E0}\U{FE0F} <b>Protocol ") + Occurrences(ch, "</b> (id <code>")
               + Occurrences(ch, "</code>) on <i>") + Occurrences(ch, "</i> has the following changes:")
  {
    var p1, p2, p3, p4 := "\U{1F6E0}\U{FE0F} <b>Protocol ", "</b> (id <code>", "</code>) on <i>", "</i> has the following changes:";
    var e1, e2, e3 := Escape(c.name), Escape(c.id), Escape(c.file);
    EscapedHasNoMarkup(ch, c.name);
    EscapedHasNoMarkup(ch, c.id);
    EscapedHasNoMarkup(ch, c.file);
    OccurrencesAppend(ch, p1, e1);
    OccurrencesAppend(ch, p1 + e1, p2);
    OccurrencesAppend(ch, p1 + e1 + p2, e2);
    OccurrencesAppend(ch, p1 + e1 + p2 + e2, p3);
    OccurrencesAppend(ch, p1 + e1 + p2 + e2 + p3, e3);
    OccurrencesAppend(ch, p1 + e1 + p2 + e2 + p3 + e3, p4);
  }

  /** Likewise for a type-change line, whatever the name and the two types. */
  lemma TypeLineMarkupFixed(ch: char, t: TypeChange, u: TypeChange)
    requires ch in "<>\"'"
    ensures Occurrences(ch, TypeLine(t)) == Occurrences(ch, TypeLine(u))
  {
    TypeLineMarkup(ch, t);
    TypeLineMarkup(ch, u);
  }

  lemma TypeLineMarkup(ch: char, t: TypeChange)
    requires ch in "<>\"'"
    ensures Occurrences(ch, TypeLine(t))
            == Occurrences(ch, "  \U{1F504} <b>") + Occurrences(ch, "</b> (type: <code>")
               + Occurrences(ch, "</code> \U{2192} <code>") + Occurrences(ch, "</code>)")
  {
    var p1, p2, p3, p4 := "  \U{1F504} <b>", "</b> (type: <code>", "</code> \U{2192} <code>", "</code>)";
    var e1, e2, e3 := Escape(t.name), Escape(OrNone(t.oldType)), Escape(OrNone(t.newType));
    EscapedHasNoMarkup(ch, t.name);
    EscapedHasNoMarkup(ch, OrNone(t.oldType));
    EscapedHasNoMarkup(ch, OrNone(t.newType));
    OccurrencesAppend(ch, p1, e1);
    OccurrencesAppend(ch, p1 + e1, p2);
    OccurrencesAppend(ch, p1 + e1 + p2, e2);
    OccurrencesAppend(ch, p1 + e1 + p2 + e2, p3);
    OccurrencesAppend(ch, p1 + e1 + p2 + e2 + p3, e3);
    OccurrencesAppend(ch, p1 + e1 + p2 + e2 + p3 + e3, p4);
  }

  lemma Regroup<T>(d: seq<T>, h: seq<T>, p: seq<T>, m: seq<T>, t: seq<T>, z: seq<T>)
    ensures d + h + p + m + t + z == d + (h + p + m + t + z)
  {
  }

  lemma AppendAssoc<T>(a: seq<T>, b: seq<T>, c: seq<T>)
    ensures a + b + c == a + (b + c)
  {
  }

  lemma NameLinesSnoc(mark: string, names: seq<string>, j: nat)
    requires j < |names|
    ensures NameLines(mark, names[..j + 1]) == NameLines(mark, names[..j]) + [NameLine(mark, names[j])]
  {
    assert names[..j + 1][..j] == names[..j];
  }

  lemma TypeLinesSnoc(types: seq<TypeChange>, j: nat)
    requires j < |types|
    ensures TypeLines(types[..j + 1]) == TypeLines(types[..j]) + [TypeLine(types[j])]
  {
    assert types[..j + 1][..j] == types[..j];
  }

  /** The loops over `plus` and over `minus`: one line per name, in order. */
  method AppendNames(lines: seq<string>, mark: string, names: seq<string>) returns (out: seq<string>)
    ensures out == lines + NameLines(mark, names)
  {
    out := lines;
    for j := 0 to |names|
      invariant out == lines + NameLines(mark, names[..j])
    {
      NameLinesSnoc(mark, names, j);
      AppendAssoc(lines, NameLines(mark, names[..j]), [NameLine(mark, names[j])]);
      out := out + [NameLine(mark, names[j])];
    }
    assert names[..|names|] == names;
  }

  /** The loop over `types`: one line per type change, in order. */
  method AppendTypes(lines: seq<string>, types: seq<TypeChange>) returns (out: seq<string>)
    ensures out == lines + TypeLines(types)
  {
    out := lines;
    for j := 0 to |types|
      invariant out == lines + TypeLines(types[..j])
    {
      TypeLinesSnoc(types, j);
      AppendAssoc(lines, TypeLines(types[..j]), [TypeLine(types[j])]);
      out := out + [TypeLine(types[j])];
    }
    assert types[..|types|] == types;
  }

  /** The body of the loop over changes in `print_human`: appends one change's block. */
  method AppendChange(lines: seq<string>, c: Change) returns (out: seq<string>)
    ensures out == lines + ChangeLines(c)
  {
    out := lines + [Header(c)];
    out := AppendNames(out, PlusMark, c.plus);
    out := AppendNames(out, MinusMark, c.minus);
    out := AppendTypes(out, c.types);
    out := out + [""];
    Regroup(lines, [Header(c)], NameLines(PlusMark, c.plus), NameLines(MinusMark, c.minus), TypeLines(c.types), [""]);
  }

  /** `print_human`: the sentinel alone when there is no change; otherwise every change's block, then the total. */
  method PrintHuman(changes: seq<Change>) returns (lines: seq<string>)
    ensures lines == HumanLines(changes)
  {
    if changes == [] {
      return [Sentinel];
    }
    lines := [];
    for i := 0 to |changes|
      invariant lines == Blocks(changes[..i])
    {
      lines := AppendChange(lines, changes[i]);
      assert changes[..i + 1][..i] == changes[..i];
    }
    assert changes[..|changes|] == changes;
    lines := lines + [TotalLine(|changes|)];
  }
}
