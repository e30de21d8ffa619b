/** The Markdown rendered from a proposal can be read back: nothing is lost, reordered or added. */
module ReleaseMarkdown {
  import opened Options
  import opened Text
  import opened ReleaseMessages

  // ----- Lines of a text -----

  predicate SingleLine(s: Text) { NEWLINE !in s }

  predicate SingleLines(lines: seq<Text>) { forall i :: 0 <= i < |lines| ==> SingleLine(lines[i]) }

  /** The pieces between newlines. */
  function Split(s: Text): (lines: seq<Text>)
    ensures lines != []
  {
    if s == [] then [[]]
    else
      var rest := Split(s[1..]);
      if s[0] == NEWLINE then [[]] + rest else [[s[0]] + rest[0]] + rest[1..]
  }

  lemma {:induction false} SplitLine(line: Text, rest: Text)
    requires SingleLine(line)
    ensures Split(line + [NEWLINE] + rest) == [line] + Split(rest)
    ensures Split(line) == [line]
  {
    if line == [] {
      assert (line + [NEWLINE] + rest)[1..] == rest;
    } else {
      SplitLine(line[1..], rest);
      assert (line + [NEWLINE] + rest)[1..] == line[1..] + [NEWLINE] + rest;
      assert [line[0]] + line[1..] == line;
    }
  }

  /** Joining lines and splitting the text are inverse. */
  lemma {:induction false} SplitJoin(lines: seq<Text>)
    requires lines != [] && SingleLines(lines)
    ensures Split(Join(lines)) == lines
  {
    if |lines| == 1 {
      SplitLine(lines[0], []);
    } else {
      SplitJoin(lines[1..]);
      SplitLine(lines[0], Join(lines[1..]));
    }
  }

  /** The lines without the blank ones at the end. */
  function WithoutBlankEnd(lines: seq<Text>): seq<Text> {
    if lines != [] && lines[|lines| - 1] == [] then WithoutBlankEnd(lines[..|lines| - 1]) else lines
  }

  lemma {:induction false} JoinAppend(lines: seq<Text>, last: Text)
    requires lines != []
    ensures Join(lines + [last]) == Join(lines) + [NEWLINE] + last
  {
    if |lines| == 1 {
      assert (lines + [last])[1..] == [last];
    } else {
      assert (lines + [last])[1..] == lines[1..] + [last];
      JoinAppend(lines[1..], last);
    }
  }

  /** Trimming newlines from a text drops the blank lines at its end. */
  lemma {:induction false} TrimDropsBlankEnd(lines: seq<Text>)
    requires lines != [] && SingleLines(lines) && lines[0] != []
    ensures WithoutBlankEnd(lines) != [] && WithoutBlankEnd(lines)[0] == lines[0] && SingleLines(WithoutBlankEnd(lines))
    ensures TrimNewlines(Join(lines)) == Join(WithoutBlankEnd(lines))
  {
    var init, last := lines[..|lines| - 1], lines[|lines| - 1];
    assert lines == init + [last];
    if init == [] {
      assert last[|last| - 1] in last;
    } else {
      JoinAppend(init, last);
      if last == [] {
        assert Join(lines)[..|Join(lines)| - 1] == Join(init);
        TrimDropsBlankEnd(init);
      } else {
        assert Join(lines)[|Join(lines)| - 1] == last[|last| - 1] && last[|last| - 1] in last;
      }
    }
  }

  // ----- Reading Markdown back -----

  const HASH: Unit := 35
  const DASH: Unit := 45
  const SPACE: Unit := 32

  predicate TitleLine(s: Text) { |s| >= 2 && s[0] == HASH && s[1] == SPACE }

  predicate HeadingLine(s: Text) { |s| >= 3 && s[0] == HASH && s[1] == HASH && s[2] == SPACE }

  predicate EntryLine(s: Text) { |s| >= 2 && s[0] == DASH && s[1] == SPACE }

  /** How many of the first lines are entries. */
  function EntryCount(lines: seq<Text>): (n: nat)
    ensures n <= |lines| && forall i :: 0 <= i < n ==> EntryLine(lines[i])
  {
    if lines != [] && EntryLine(lines[0]) then 1 + EntryCount(lines[1..]) else 0
  }

  function EntriesOf(lines: seq<Text>): seq<Text>
    requires forall i :: 0 <= i < |lines| ==> EntryLine(lines[i])
  {
    seq(|lines|, i requires 0 <= i < |lines| && EntryLine(lines[i]) => lines[i][2..])
  }

  /** Sections are a heading, a blank line and entries; a blank line ends all but the last. */
  function ReadSections(lines: seq<Text>): Option<seq<Section>> {
    if lines == [] then Some([])
    else if !HeadingLine(lines[0]) then None
    else if |lines| == 1 then Some([Section(lines[0][3..], [])])
    else if lines[1] != [] then None
    else
      var n := EntryCount(lines[2..]);
      var section := Section(lines[0][3..], EntriesOf(lines[2..][..n]));
      var rest := lines[2 + n..];
      if rest == [] then Some([section])
      else if rest[0] != [] then None
      else
        match ReadSections(rest[1..])
        case None => None
        case Some(sections) => Some([section] + sections)
  }

  /** A title, a blank line and sections, closed by one newline. */
  function Read(text: Text): Option<(Text, Document)> {
    var lines := Split(text);
    if |lines| < 2 || lines[|lines| - 1] != [] || !TitleLine(lines[0]) then None
    else if |lines| == 2 then Some((lines[0][2..], Document([])))
    else if lines[1] != [] then None
    else
      match ReadSections(lines[2..|lines| - 1])
      case None => None
      case Some(sections) => Some((lines[0][2..], Document(sections)))
  }

  // ----- The rendered lines -----

  predicate Plain(document: Document) {
    forall i :: 0 <= i < |document.sections| ==> PlainSection(document.sections[i])
  }

  predicate PlainSection(section: Section) {
    SingleLine(section.heading) && SingleLines(section.entries)
  }

  lemma {:induction false} EntryLinesAt(entries: seq<Text>)
    ensures |EntryLines(entries)| == |entries|
    ensures forall i :: 0 <= i < |entries| ==> EntryLines(entries)[i] == [DASH, SPACE] + entries[i]
  {
    if entries != [] {
      EntryLinesAt(entries[1..]);
    }
  }

  lemma {:induction false} CountedEntries(entries: seq<Text>, rest: seq<Text>)
    requires rest == [] || !EntryLine(rest[0])
    ensures EntryCount(EntryLines(entries) + rest) == |entries|
    ensures EntriesOf((EntryLines(entries) + rest)[..|entries|]) == entries
  {
    EntryLinesAt(entries);
    var lines := EntryLines(entries) + rest;
    if entries != [] {
      assert lines[1..] == EntryLines(entries[1..]) + rest;
      CountedEntries(entries[1..], rest);
    }
    var read := EntriesOf(lines[..|entries|]);
    forall i | 0 <= i < |entries| ensures read[i] == entries[i] {
      assert lines[i] == [DASH, SPACE] + entries[i];
    }
    assert read == entries;
  }

  lemma {:induction false} BlankEndKept(a: seq<Text>, b: seq<Text>)
    requires WithoutBlankEnd(b) != []
    ensures WithoutBlankEnd(a + b) == a + WithoutBlankEnd(b)
  {
    if b[|b| - 1] == [] {
      assert (a + b)[..|a + b| - 1] == a + b[..|b| - 1];
      BlankEndKept(a, b[..|b| - 1]);
    }
  }

  lemma {:induction false} BlankEndGone(a: seq<Text>, b: seq<Text>)
    requires WithoutBlankEnd(b) == []
    ensures WithoutBlankEnd(a + b) == WithoutBlankEnd(a)
  {
    if b == [] {
      assert a + b == a;
    } else {
      assert b[|b| - 1] == [];
      assert (a + b)[..|a + b| - 1] == a + b[..|b| - 1];
      BlankEndGone(a, b[..|b| - 1]);
    }
  }

  function HeadingOf(section: Section): Text { [HASH, HASH, SPACE] + section.heading }

  lemma {:induction false} SectionsReadBack(sections: seq<Section>)
    ensures ReadSections(WithoutBlankEnd(SectionLines(sections))) == Some(sections)
    ensures sections != [] ==> WithoutBlankEnd(SectionLines(sections)) != []
  {
    if sections != [] {
      var head, rest := sections[0], SectionLines(sections[1..]);
      SectionsReadBack(sections[1..]);
      var front := [HeadingOf(head), []] + EntryLines(head.entries);
      assert SectionLines(sections) == front + [[]] + rest;
      assert HeadingOf(head)[3..] == head.heading;
      if sections[1..] != [] {
        MoreSections(head, WithoutBlankEnd(rest), sections[1..]);
        BlankEndKept(front + [[]], rest);
        assert WithoutBlankEnd(SectionLines(sections)) == front + [[]] + WithoutBlankEnd(rest);
        assert [head] + sections[1..] == sections;
      } else {
        assert sections == [head] && front + [[]] + rest == front + [[]];
        BlankEndGone(front, [[]]);
        LastSection(head);
        assert WithoutBlankEnd(SectionLines(sections)) == WithoutBlankEnd(front);
      }
    }
  }

  lemma MoreSections(head: Section, rest: seq<Text>, sections: seq<Section>)
    requires rest != [] && ReadSections(rest) == Some(sections)
    ensures ReadSections([HeadingOf(head), []] + EntryLines(head.entries) + [[]] + rest) == Some([head] + sections)
  {
    var lines := [HeadingOf(head), []] + EntryLines(head.entries) + [[]] + rest;
    var n := |head.entries|;
    EntryLinesAt(head.entries);
    assert lines[2..] == EntryLines(head.entries) + ([[]] + rest);
    CountedEntries(head.entries, [[]] + rest);
    assert lines[2 + n..] == [[]] + rest;
    assert lines[2 + n..][1..] == rest;
    assert lines[0][3..] == head.heading;
  }

  lemma LastSection(head: Section)
    ensures var lines := WithoutBlankEnd([HeadingOf(head), []] + EntryLines(head.entries));
            lines != [] && ReadSections(lines) == Some([head])
  {
    var front := [HeadingOf(head), []] + EntryLines(head.entries);
    EntryLinesAt(head.entries);
    assert HeadingOf(head)[3..] == head.heading;
    if head.entries == [] {
      assert front == [HeadingOf(head)] + [[]];
      BlankEndGone([HeadingOf(head)], [[]]);
      assert EntriesOf([]) == head.entries;
    } else {
      assert front[|front| - 1] == EntryLines(head.entries)[|head.entries| - 1];
      assert front[2..] == EntryLines(head.entries) + [];
      CountedEntries(head.entries, []);
    }
  }

  lemma {:induction false} SectionsAreSingleLines(sections: seq<Section>)
    requires forall i :: 0 <= i < |sections| ==> PlainSection(sections[i])
    ensures SingleLines(SectionLines(sections))
  {
    if sections != [] {
      SectionsAreSingleLines(sections[1..]);
      EntryLinesAt(sections[0].entries);
      assert PlainSection(sections[0]);
    }
  }

  function RenderedText(title: Text, document: Document): Text {
    TrimNewlines(Join([[HASH, SPACE] + title, []] + SectionLines(document.sections))) + [NEWLINE]
  }

  /** Reading the rendered text gives the title and document again, section by section and entry by entry. */
  lemma RenderReadsBack(title: Text, document: Document)
    requires SingleLine(title) && Plain(document)
    ensures Read(RenderedText(title, document)) == Some((title, document))
  {
    var top, sections := [HASH, SPACE] + title, SectionLines(document.sections);
    var lines := [top, []] + sections;
    SectionsAreSingleLines(document.sections);
    assert SingleLines(lines);
    TrimDropsBlankEnd(lines);
    var kept := WithoutBlankEnd(lines);
    SectionsReadBack(document.sections);
    if document.sections == [] {
      assert lines == [top] + [[]];
      BlankEndGone([top], [[]]);
    } else {
      BlankEndKept([top, []], sections);
    }
    JoinAppend(kept, []);
    assert SingleLines(kept + [[]]);
    SplitJoin(kept + [[]]);
    assert RenderedText(title, document) == Join(kept + [[]]);
    assert top[2..] == title;
    if document.sections != [] {
      assert kept == [top, []] + WithoutBlankEnd(sections);
      assert (kept + [[]])[2..|kept|] == WithoutBlankEnd(sections);
    }
  }

  /** The stored bytes decode to that text when it survives encoding. */
  lemma StoredMarkdownReadsBack(title: Text, document: Document)
    requires SingleLine(title) && Plain(document) && Encodable(RenderedText(title, document))
    ensures var stored := Decode(Render(title, document)); stored.Some? && Read(stored.value) == Some((title, document))
  {
    RenderReadsBack(title, document);
    RoundTrip(RenderedText(title, document));
  }
}
