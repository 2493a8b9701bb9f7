/** A panel as the components Discord draws. */
module Layout {
  import opened Text
  import opened Panels

  /** One component. A section holds one or two texts and a picture beside them; a row holds a button. */
  datatype Part =
    | TextDisplay(content: string)
    | Separator(large: bool)
    | Section(lines: seq<string>, picture: string)
    | Gallery(images: seq<PanelImage>)
    | ActionRow(link: PanelLink)

  /** A view's parts, in a coloured box or bare. */
  datatype View = Bare(parts: seq<Part>) | Boxed(parts: seq<Part>, colour: int)

  datatype Message = Plain(text: string) | Card(view: View)

  // ----- What a view holds -----

  function Displays(lines: seq<string>): seq<Part> {
    if lines == [] then [] else [TextDisplay(lines[0])] + Displays(lines[1..])
  }

  /** The parts with each section's texts in its place. */
  function Flat(parts: seq<Part>): seq<Part> {
    if parts == [] then []
    else (if parts[0].Section? then Displays(parts[0].lines) else [parts[0]]) + Flat(parts[1..])
  }

  /** Every text display, in order. */
  function WordsIn(parts: seq<Part>): seq<string> {
    if parts == [] then []
    else
      (match parts[0]
       case TextDisplay(content) => [content]
       case Section(lines, _) => lines
       case _ => [])
      + WordsIn(parts[1..])
  }

  /** How many components, nested ones counted: a section's texts and picture, a row's button. */
  function PartsIn(parts: seq<Part>): nat {
    if parts == [] then 0
    else
      (match parts[0]
       case Section(lines, _) => |lines| + 2
       case ActionRow(_) => 2
       case _ => 1)
      + PartsIn(parts[1..])
  }

  function ComponentsIn(view: View): nat { PartsIn(view.parts) + if view.Boxed? then 1 else 0 }

  // ----- What a panel should come to -----

  /** The rule above a block, but for the first. */
  function RuleAbove(kind: Kind, first: bool): seq<Part> {
    if first then []
    else
      match kind
      case Body => [Separator(true)]
      case Fields => [Separator(false)]
      case Footnote => [Separator(false)]
      case _ => []
  }

  /** Each block under its rule, nothing paired and nothing beside. */
  function Stacked(blocks: seq<Block>): seq<Part> {
    if blocks == [] then []
    else
      var (above, last) := (blocks[..|blocks| - 1], blocks[|blocks| - 1]);
      Stacked(above) + RuleAbove(last.kind, above == []) + [TextDisplay(last.text)]
  }

  function Extras(panel: Panel): seq<Part> {
    (if panel.images != [] then [Gallery(panel.images)] else [])
    + (if panel.link.Some? then [ActionRow(panel.link.value)] else [])
  }

  predicate NoneEmpty(blocks: seq<Block>) { forall i :: 0 <= i < |blocks| ==> blocks[i].text != "" }

  lemma {:induction false} FlatAppend(a: seq<Part>, b: seq<Part>)
    ensures Flat(a + b) == Flat(a) + Flat(b)
  {
    if a == [] {
      assert a + b == b;
    } else {
      assert (a + b)[1..] == a[1..] + b;
      FlatAppend(a[1..], b);
    }
  }

  /** One or two texts as they open a panel: beside the picture if there is one yet to be shown. */
  function Opening(said: string, under: string, picture: Option<string>): seq<Part> {
    var lines := if under == "" then [said] else [said, under];
    if picture.Some? then [Section(lines, picture.value)] else Displays(lines)
  }

  lemma OpeningIsFlat(said: string, under: string, picture: Option<string>)
    ensures Flat(Opening(said, under, picture))
         == [TextDisplay(said)] + if under == "" then [] else [TextDisplay(under)]
    ensures forall i :: 0 <= i < |Opening(said, under, picture)| ==>
              Opening(said, under, picture)[i].Section? == picture.Some?
    ensures picture.Some? ==> |Opening(said, under, picture)| == 1
  {
    var lines := if under == "" then [said] else [said, under];
    assert [said, under][1..] == [under] && [under][1..] == [] && [said][1..] == [];
    assert Displays([under]) == [TextDisplay(under)];
    assert Displays(lines) == [TextDisplay(said)] + if under == "" then [] else [TextDisplay(under)];
    DisplaysAreFlat(lines);
    if picture.Some? {
      assert [Section(lines, picture.value)][1..] == [];
      assert Displays(lines) + Flat([]) == Displays(lines);
    }
  }

  lemma {:induction false} DisplaysAreFlat(lines: seq<string>)
    ensures Flat(Displays(lines)) == Displays(lines)
    ensures forall i :: 0 <= i < |Displays(lines)| ==> Displays(lines)[i].TextDisplay?
  {
    if lines != [] {
      DisplaysAreFlat(lines[1..]);
      assert Displays(lines)[1..] == Displays(lines[1..]);
    }
  }

  lemma RuleIsFlat(kind: Kind, first: bool)
    ensures Flat(RuleAbove(kind, first)) == RuleAbove(kind, first)
    ensures forall i :: 0 <= i < |RuleAbove(kind, first)| ==> !RuleAbove(kind, first)[i].Section?
  {
  }

  lemma StackOne(blocks: seq<Block>, index: nat)
    requires index < |blocks|
    ensures Stacked(blocks[..index + 1])
         == Stacked(blocks[..index]) + RuleAbove(blocks[index].kind, index == 0) + [TextDisplay(blocks[index].text)]
  {
    assert blocks[..index + 1][..index] == blocks[..index];
  }

  /** What the picture is beside: the first block, and the subheading right under a heading. */
  function FirstLines(blocks: seq<Block>): seq<string>
    requires blocks != []
  {
    if |blocks| > 1 && blocks[0].kind.Heading? && blocks[1].kind.Subheading? then [blocks[0].text, blocks[1].text]
    else [blocks[0].text]
  }

  /** The picture is shown exactly when there is one and something to hang it on, once, beside what the
      panel opens with. */
  predicate HangsThePicture(panel: Panel, parts: seq<Part>) {
    && (forall i :: 0 <= i < |parts| ==>
          (parts[i].Section? <==> i == 0 && panel.thumbnail.Some? && panel.blocks != []))
    && (panel.thumbnail.Some? && panel.blocks != [] ==>
          parts != [] && parts[0] == Section(FirstLines(panel.blocks), panel.thumbnail.value))
  }

  /** Every block as a component, a heading paired with the subheading under it, and the picture hung
      beside whatever the panel opens with. Flattened, that is the blocks stacked one by one. */
  method Parts(panel: Panel) returns (parts: seq<Part>)
    requires NoneEmpty(panel.blocks)
    ensures Flat(parts) == Stacked(panel.blocks) + Extras(panel)
    ensures HangsThePicture(panel, parts)
  {
    hide Flat, Stacked, Displays, Opening;
    var blocks := panel.blocks;
    parts := [];
    var picture := panel.thumbnail;
    var index := 0;
    NothingStacked(blocks);
    while index < |blocks|
      invariant index <= |blocks| && (parts == [] <==> index == 0)
      invariant Flat(parts) == Stacked(blocks[..index])
      invariant picture == if index == 0 then panel.thumbnail else None
      invariant forall i :: 0 <= i < |parts| ==> (parts[i].Section? <==> i == 0 && panel.thumbnail.Some?)
      invariant parts != [] && panel.thumbnail.Some? ==>
                  parts[0] == Section(FirstLines(blocks), panel.thumbnail.value)
    {
      var block := blocks[index];
      ghost var start := index;
      StackOne(blocks, index);
      index := index + 1;
      var under := "";
      if block.kind.Heading? && index < |blocks| && blocks[index].kind.Subheading? {
        under := blocks[index].text;
        StackOne(blocks, index);
        index := index + 1;
      }
      var rule := RuleAbove(block.kind, parts == []);
      var opening := Opening(block.text, under, picture);
      RuleIsFlat(block.kind, parts == []);
      OpeningIsFlat(block.text, under, picture);
      OpensOnThePicture(block.text, under, picture);
      FlatAppend(parts, rule);
      FlatAppend(parts + rule, opening);
      if under != "" {
        assert Stacked(blocks[..index])
            == Stacked(blocks[..start]) + rule + [TextDisplay(block.text)] + [] + [TextDisplay(under)];
      }
      parts := parts + rule + opening;
      picture := None;
    }
    assert blocks[..|blocks|] == blocks;
    ExtrasAreFlat(panel);
    FlatAppend(parts, Extras(panel));
    parts := parts + Extras(panel);
  }

  lemma OpensOnThePicture(said: string, under: string, picture: Option<string>)
    ensures var opening := Opening(said, under, picture);
            && opening != []
            && (picture.Some? ==>
                  opening[0] == Section(if under == "" then [said] else [said, under], picture.value))
  {
    assert [said, under] != [] && [said] != [];
  }

  lemma NothingStacked(blocks: seq<Block>)
    ensures Flat([]) == Stacked(blocks[..0])
  {
  }

  lemma ExtrasAreFlat(panel: Panel)
    ensures Flat(Extras(panel)) == Extras(panel)
    ensures forall i :: 0 <= i < |Extras(panel)| ==> !Extras(panel)[i].Section?
  {
    var gallery := if panel.images != [] then [Gallery(panel.images)] else [];
    var row := if panel.link.Some? then [ActionRow(panel.link.value)] else [];
    assert Flat(gallery) == gallery && Flat(row) == row;
    FlatAppend(gallery, row);
  }

  // ----- The law -----

  lemma {:induction false} WordsAppend(a: seq<Part>, b: seq<Part>)
    ensures WordsIn(a + b) == WordsIn(a) + WordsIn(b)
    ensures PartsIn(a + b) == PartsIn(a) + PartsIn(b)
  {
    if a == [] {
      assert a + b == b;
    } else {
      assert (a + b)[1..] == a[1..] + b;
      WordsAppend(a[1..], b);
    }
  }

  lemma {:induction false} DisplaysAreWords(lines: seq<string>)
    ensures WordsIn(Displays(lines)) == lines && PartsIn(Displays(lines)) == |lines|
  {
    if lines != [] {
      DisplaysAreWords(lines[1..]);
    }
  }

  /** Sections change nothing of what is said, and cost two components each. */
  lemma {:induction false} FlatSaysTheSame(parts: seq<Part>)
    ensures WordsIn(Flat(parts)) == WordsIn(parts)
    ensures PartsIn(parts) == PartsIn(Flat(parts)) + 2 * Sections(parts)
  {
    if parts != [] {
      var first := if parts[0].Section? then Displays(parts[0].lines) else [parts[0]];
      FlatSaysTheSame(parts[1..]);
      WordsAppend(first, Flat(parts[1..]));
      WordsAppend([parts[0]], parts[1..]);
      assert parts == [parts[0]] + parts[1..];
      if parts[0].Section? {
        DisplaysAreWords(parts[0].lines);
      }
    }
  }

  function Sections(parts: seq<Part>): nat {
    if parts == [] then 0 else (if parts[0].Section? then 1 else 0) + Sections(parts[1..])
  }

  lemma {:induction false} NoSections(parts: seq<Part>)
    requires forall i :: 0 <= i < |parts| ==> !parts[i].Section?
    ensures Sections(parts) == 0
  {
    if parts != [] {
      NoSections(parts[1..]);
    }
  }

  lemma StackedLast(above: seq<Block>, last: Block)
    ensures Stacked(above + [last]) == Stacked(above) + RuleAbove(last.kind, above == []) + [TextDisplay(last.text)]
  {
    assert (above + [last])[..|above|] == above;
  }

  lemma OneMoreText(blocks: seq<Block>, block: Block)
    ensures TextsOf(blocks + [block]) == TextsOf(blocks) + [block.text]
  {
  }

  lemma RuleSaysNothing(kind: Kind, first: bool)
    ensures WordsIn(RuleAbove(kind, first)) == [] && PartsIn(RuleAbove(kind, first)) <= 1
  {
  }

  lemma OneTextSaysIt(text: string)
    ensures WordsIn([TextDisplay(text)]) == [text] && PartsIn([TextDisplay(text)]) == 1
  {
  }

  lemma OneMoreSays(stack: seq<Part>, block: Block, first: bool)
    ensures var out := stack + RuleAbove(block.kind, first) + [TextDisplay(block.text)];
            && WordsIn(out) == WordsIn(stack) + [block.text]
            && PartsIn(stack) + 1 <= PartsIn(out) <= PartsIn(stack) + 2
  {
    hide WordsIn, PartsIn, RuleAbove;
    var rule := RuleAbove(block.kind, first);
    WordsAppend(stack + rule, [TextDisplay(block.text)]);
    WordsAppend(stack, rule);
    RuleSaysNothing(block.kind, first);
    OneTextSaysIt(block.text);
    assert WordsIn(stack + rule) == WordsIn(stack);
  }

  lemma NothingSaysNothing()
    ensures WordsIn(Stacked([])) == TextsOf([]) && PartsIn(Stacked([])) == 0
  {
  }

  lemma {:induction false} StackedSays(blocks: seq<Block>)
    ensures WordsIn(Stacked(blocks)) == TextsOf(blocks)
    ensures |blocks| <= PartsIn(Stacked(blocks)) <= 2 * |blocks|
  {
    hide WordsIn, PartsIn, RuleAbove, TextsOf, Stacked;
    if blocks == [] {
      NothingSaysNothing();
    } else {
      var above, last := blocks[..|blocks| - 1], blocks[|blocks| - 1];
      StackedSays(above);
      assert blocks == above + [last];
      StackedLast(above, last);
      OneMoreSays(Stacked(above), last, above == []);
      OneMoreText(above, last);
    }
  }

  lemma ExtrasSayNothing(panel: Panel)
    ensures WordsIn(Extras(panel)) == []
    ensures PartsIn(Extras(panel)) == (if panel.images != [] then 1 else 0) + if panel.link.Some? then 2 else 0
  {
    var gallery := if panel.images != [] then [Gallery(panel.images)] else [];
    var row := if panel.link.Some? then [ActionRow(panel.link.value)] else [];
    assert WordsIn(gallery) == [] && WordsIn(row) == [];
    assert PartsIn(gallery) == |gallery| && PartsIn(row) == 2 * |row|;
    WordsAppend(gallery, row);
  }

  /** A panel's view says exactly the blocks' texts, in order, in at most two components a block and six. */
  lemma ViewsSayTheBlocks(panel: Panel, parts: seq<Part>)
    requires Flat(parts) == Stacked(panel.blocks) + Extras(panel) && HangsThePicture(panel, parts)
    ensures WordsIn(parts) == TextsOf(panel.blocks)
    ensures PartsIn(parts) <= 2 * |panel.blocks| + 5
  {
    FlatSaysTheSame(parts);
    WordsAppend(Stacked(panel.blocks), Extras(panel));
    StackedSays(panel.blocks);
    ExtrasSayNothing(panel);
    if parts != [] {
      NoSections(parts[1..]);
    }
  }

  /** What to send: text for a panel with no structure, a view for any other, and never more than the
      budget of either. */
  method AsMessage(panel: Panel) returns (message: Message)
    requires NoneEmpty(panel.blocks)
    ensures message.Plain? <==> panel.IsPlain()
    ensures message.Plain? ==> message.text == Trimmed(panel).Words()
    ensures message.Card? ==>
              && WordsIn(message.view.parts) == TextsOf(Trimmed(panel).blocks)
              && ComponentsIn(message.view) <= 2 * |panel.blocks| + 6
              && Flat(message.view.parts) == Stacked(Trimmed(panel).blocks) + Extras(panel)
              && HangsThePicture(Trimmed(panel), message.view.parts)
              && (message.view.Boxed? <==> panel.accent.Some?)
              && (message.view.Boxed? ==> Some(message.view.colour) == panel.accent)
    ensures Trimmed(panel).Length() <= 3900
  {
    hide Flat, Stacked, WordsIn, PartsIn;
    var cut := Trim(panel);
    TrimmedFits(panel);
    if panel.IsPlain() {
      return Plain(cut.Words());
    }
    TrimmedSaysSomething(panel);
    var parts := Parts(cut);
    ViewsSayTheBlocks(cut, parts);
    assert Extras(cut) == Extras(panel);
    message := Card(if panel.accent.None? then Bare(parts) else Boxed(parts, panel.accent.value));
  }

  lemma TrimmedSaysSomething(panel: Panel)
    requires NoneEmpty(panel.blocks)
    ensures NoneEmpty(Trimmed(panel).blocks)
  {
    hide Trimmed, Split, Join, Fitting;
    TrimmedFits(panel);
  }

  /** The first block stands bare; a body stands under a large rule, fields and a footnote under a small one,
      and a heading of either kind under none. */
  lemma RulesStand(above: seq<Block>, last: Block)
    ensures Stacked([last]) == [TextDisplay(last.text)]
    ensures above != [] ==>
              Stacked(above + [last])
              == Stacked(above)
                 + (if last.kind == Body then [Separator(true), TextDisplay(last.text)]
                    else if last.kind == Fields || last.kind == Footnote then [Separator(false), TextDisplay(last.text)]
                    else [TextDisplay(last.text)])
  {
    StackedLast(above, last);
    StackedLast([], last);
    assert [] + [last] == [last];
  }
}
