/** A message before anything decides how it looks, and cut to what Discord takes. */
module Panels {
  import opened Text

  /** What one view may hold, in characters. */
  const PANEL_BUDGET: nat := 3900

  const TRUNCATED: string := ['\n', ELLIPSIS]

  datatype Kind = Heading | Subheading | Fields | Body | Footnote

  datatype Block = Block(kind: Kind, text: string)

  datatype PanelLink = PanelLink(words: string, url: string)

  datatype PanelImage = PanelImage(url: string, alt: Option<string>)

  datatype Panel = Panel(
    blocks: seq<Block>, accent: Option<int>, thumbnail: Option<string>, link: Option<PanelLink>,
    images: seq<PanelImage>)
  {
    /** A message rather than a card. */
    predicate IsPlain() { accent.None? && thumbnail.None? && link.None? && images == [] }

    function Length(): nat { LengthOf(blocks) }

    /** Every block in order, joined by a line break. */
    function Words(): string { Join(TextsOf(blocks)) }
  }

  function LengthOf(blocks: seq<Block>): nat {
    if blocks == [] then 0 else LengthOf(blocks[..|blocks| - 1]) + |blocks[|blocks| - 1].text|
  }

  function TextsOf(blocks: seq<Block>): (texts: seq<string>)
    ensures |texts| == |blocks| && forall i :: 0 <= i < |texts| ==> texts[i] == blocks[i].text
  {
    seq(|blocks|, i requires 0 <= i < |blocks| => blocks[i].text)
  }

  // ----- Whole lines -----

  /** What keeping the first `n` lines costs, the breaks between them counted. */
  function Cost(lines: seq<string>): nat { |Join(lines)| }

  lemma {:induction false} CostOfOneMore(lines: seq<string>, line: string)
    ensures Cost(lines + [line]) == Cost(lines) + |line| + if lines == [] then 0 else 1
  {
    if lines != [] {
      assert (lines + [line])[1..] == lines[1..] + [line];
      CostOfOneMore(lines[1..], line);
      if |lines| == 1 {
        assert lines[1..] + [line] == [line];
      }
    }
  }

  lemma {:induction false} CostGrows(lines: seq<string>, n: nat)
    requires n <= |lines|
    ensures Cost(lines[..n]) <= Cost(lines)
    decreases |lines| - n
  {
    if n < |lines| {
      assert lines[..n + 1] == lines[..n] + [lines[n]];
      CostOfOneMore(lines[..n], lines[n]);
      CostGrows(lines, n + 1);
    } else {
      assert lines[..n] == lines;
    }
  }

  /** The leading whole lines of a text that fit in a budget: as many as fit, and always fewer than all
      for a text longer than its budget, so the loop always stops inside itself. */
  method LinesWithin(text: string, budget: int) returns (kept: seq<string>)
    requires |text| > budget
    ensures |kept| < |Split(text)| && kept == Split(text)[..|kept|]
    ensures kept == [] || Cost(kept) <= budget
    ensures Cost(kept + [Split(text)[|kept|]]) > budget
  {
    hide Split;
    var lines := Split(text);
    JoinOfSplit(text);
    kept := [];
    var used := 0;
    for i := 0 to |lines|
      invariant kept == lines[..i] && used == Cost(kept) && (i == |lines| ==> kept == lines)
      invariant kept == [] || used <= budget
    {
      var cost := |lines[i]| + if kept != [] then 1 else 0;
      CostOfOneMore(kept, lines[i]);
      if used + cost > budget {
        return kept;
      }
      assert lines[..i + 1] == lines[..i] + [lines[i]];
      kept := kept + [lines[i]];
      used := used + cost;
    }
    // The lines cost what the text does, which is over the budget.
    assert false;
  }

  /** How many leading lines of a text fit in a budget. */
  function Fitting(lines: seq<string>, budget: int): (n: nat)
    ensures n <= |lines|
    ensures n == 0 || Cost(lines[..n]) <= budget
    ensures n < |lines| ==> Cost(lines[..n + 1]) > budget
  {
    FittingFrom(lines, budget, 0)
  }

  function FittingFrom(lines: seq<string>, budget: int, from: nat): (n: nat)
    requires from <= |lines| && (from == 0 || Cost(lines[..from]) <= budget)
    ensures from <= n <= |lines|
    ensures n == 0 || Cost(lines[..n]) <= budget
    ensures n < |lines| ==> Cost(lines[..n + 1]) > budget
    decreases |lines| - from
  {
    if from < |lines| && Cost(lines[..from + 1]) <= budget then FittingFrom(lines, budget, from + 1) else from
  }

  lemma {:induction false} FittingIsLargest(lines: seq<string>, budget: int, n: nat)
    requires n <= |lines| && (n == 0 || Cost(lines[..n]) <= budget) && (n < |lines| ==> Cost(lines[..n + 1]) > budget)
    ensures n == Fitting(lines, budget)
  {
    var m := Fitting(lines, budget);
    if m < n {
      assert lines[..n][..m + 1] == lines[..m + 1];
      CostGrows(lines[..n], m + 1);
    } else if n < m {
      assert lines[..m][..n + 1] == lines[..n + 1];
      CostGrows(lines[..m], n + 1);
    }
  }

  /** `text[:end]`, where a negative end counts from the back. */
  function Upto(text: string, end: int): string {
    if end >= |text| then text else if end >= 0 then text[..end]
    else if |text| + end >= 0 then text[..|text| + end] else []
  }

  /** A text cut to a limit between lines, or inside its first where that alone is too long. */
  function Fit(text: string, limit: int): string {
    if |text| <= limit then text
    else
      var budget := limit - |TRUNCATED|;
      var n := Fitting(Split(text), budget);
      if n == 0 then Upto(text, budget) + TRUNCATED else Join(Split(text)[..n]) + TRUNCATED
  }

  method FitText(text: string, limit: int) returns (out: string)
    ensures out == Fit(text, limit)
  {
    if |text| <= limit {
      return text;
    }
    var budget := limit - |TRUNCATED|;
    var kept := LinesWithin(text, budget);
    assert Split(text)[..|kept| + 1] == kept + [Split(text)[|kept|]];
    FittingIsLargest(Split(text), budget, |kept|);
    if kept == [] {
      return Upto(text, budget) + TRUNCATED;
    }
    out := Join(kept) + TRUNCATED;
  }

  /** Within the limit exactly when it leaves room for the mark of the cut, or nothing is cut. */
  lemma FitIsWithin(text: string, limit: int)
    ensures |Fit(text, limit)| <= limit <==> |text| <= limit || limit >= 2
  {
    hide Split;
    var n := Fitting(Split(text), limit - 2);
  }

  /** What is kept is a leading part of the text: the most whole lines of it that leave room for the mark of
      the cut, and its first characters where not one does. */
  lemma {:induction false} FitKeepsTheFront(text: string, limit: int)
    requires limit >= 2 && |text| > limit
    ensures var kept := Fit(text, limit)[..|Fit(text, limit)| - 2];
            var lines := Split(text);
            && Fit(text, limit) == kept + TRUNCATED
            && kept <= text
            && (Cost(lines[..1]) > limit - 2 ==> kept == text[..limit - 2])
            && (Cost(lines[..1]) <= limit - 2 ==>
                  exists n :: 1 <= n < |lines| && kept == Join(lines[..n])
                              && Cost(lines[..n]) <= limit - 2 < Cost(lines[..n + 1]))
  {
    var lines := Split(text);
    var n := Fitting(lines, limit - 2);
    JoinOfSplit(text);
    JoinPrefix(lines, n);
    assert lines[..|lines|] == lines;
    if n == 0 {
      assert Fit(text, limit) == text[..limit - 2] + TRUNCATED;
    } else {
      assert Fit(text, limit) == Join(lines[..n]) + TRUNCATED;
      CostGrows(lines[..n], 1);
      assert lines[..n][..1] == lines[..1];
      assert n < |lines|;
    }
  }

  lemma {:induction false} JoinPrefix(lines: seq<string>, n: nat)
    requires n <= |lines|
    ensures Join(lines[..n]) <= Join(lines)
  {
    if n == |lines| {
      assert lines[..n] == lines;
    } else if n > 1 {
      JoinPrefix(lines[1..], n - 1);
      assert lines[..n][1..] == lines[1..][..n - 1];
    }
  }

  // ----- Whole blocks -----

  /** How many leading blocks are kept: as many as fit, and always the first. */
  function KeptBlocks(blocks: seq<Block>): (n: nat)
    ensures n <= |blocks| && (blocks != [] ==> n >= 1)
    ensures n > 1 ==> LengthOf(blocks[..n]) <= PANEL_BUDGET
    ensures n < |blocks| ==> LengthOf(blocks[..n + 1]) > PANEL_BUDGET
  {
    if |blocks| <= 1 || LengthOf(blocks) <= PANEL_BUDGET then
      assert blocks[..|blocks|] == blocks;
      |blocks|
    else
      var n := KeptBlocks(blocks[..|blocks| - 1]);
      assert blocks[..|blocks| - 1][..n] == blocks[..n];
      assert n + 1 < |blocks| ==> blocks[..|blocks| - 1][..n + 1] == blocks[..n + 1];
      assert blocks[..|blocks|] == blocks;
      n
  }

  lemma KeptOfTooMany(blocks: seq<Block>)
    requires |blocks| > 1 && LengthOf(blocks) > PANEL_BUDGET
    ensures KeptBlocks(blocks) == KeptBlocks(blocks[..|blocks| - 1])
  {
  }

  lemma KeptOfEnough(blocks: seq<Block>)
    requires |blocks| <= 1 || LengthOf(blocks) <= PANEL_BUDGET
    ensures KeptBlocks(blocks) == |blocks|
  {
  }

  function Trimmed(panel: Panel): Panel {
    if panel.Length() <= PANEL_BUDGET then panel
    else
      var n := KeptBlocks(panel.blocks);
      var last := panel.blocks[n - 1];
      var room := PANEL_BUDGET - LengthOf(panel.blocks[..n - 1]);
      panel.(blocks := panel.blocks[..n - 1] + [last.(text := Fit(last.text, room))])
  }

  /** Whole blocks off the end until what is left fits, then the survivor cut. */
  method Trim(panel: Panel) returns (out: Panel)
    ensures out == Trimmed(panel)
  {
    hide KeptBlocks, Fit;
    if panel.Length() <= PANEL_BUDGET {
      return panel;
    }
    var kept := panel.blocks;
    while |kept| > 1 && LengthOf(kept) > PANEL_BUDGET
      invariant 1 <= |kept| <= |panel.blocks| && kept == panel.blocks[..|kept|]
      invariant KeptBlocks(panel.blocks) == KeptBlocks(kept)
    {
      KeptOfTooMany(kept);
      kept := kept[..|kept| - 1];
    }
    KeptOfEnough(kept);
    var last := kept[|kept| - 1];
    var room := PANEL_BUDGET - LengthOf(kept[..|kept| - 1]);
    var text := FitText(last.text, room);
    assert kept[..|kept| - 1] == panel.blocks[..|kept| - 1];
    out := panel.(blocks := kept[..|kept| - 1] + [last.(text := text)]);
  }

  lemma LengthOfOneMore(blocks: seq<Block>, block: Block)
    ensures LengthOf(blocks + [block]) == LengthOf(blocks) + |block.text|
  {
    assert (blocks + [block])[..|blocks|] == blocks;
  }

  /** What trimming may do: keep a leading part of the blocks, as many as fit and the first always among
      them, and cut a block's text only when it is the one left. */
  predicate Leads(cut: Panel, panel: Panel) {
    && |cut.blocks| <= |panel.blocks| && (panel.blocks != [] ==> cut.blocks != [])
    && (|cut.blocks| != 1 ==> cut.blocks == panel.blocks[..|cut.blocks|])
    && (|cut.blocks| == 1 ==> cut.blocks[0] == panel.blocks[0].(text := Fit(panel.blocks[0].text, 3900)))
    && (|cut.blocks| < |panel.blocks| ==> LengthOf(panel.blocks[..|cut.blocks| + 1]) > 3900)
    && cut.(blocks := panel.blocks) == panel
  }

  lemma NothingIsShort()
    ensures LengthOf([]) == 0
  {
  }

  lemma LongPanelFits(panel: Panel)
    requires panel.Length() > PANEL_BUDGET
    ensures Trimmed(panel).Length() <= PANEL_BUDGET && Leads(Trimmed(panel), panel)
  {
    hide Fit, Join, Split, KeptBlocks, LengthOf;
    NothingIsShort();
    var n := KeptBlocks(panel.blocks);
    var last := panel.blocks[n - 1];
    var before := panel.blocks[..n - 1];
    var room := PANEL_BUDGET - LengthOf(before);
    LengthOfOneMore(before, last);
    LengthOfOneMore(before, last.(text := Fit(last.text, room)));
    assert panel.blocks[..n] == before + [last];
    FitIsWithin(last.text, room);
    if n == 1 {
      assert before == [];
    } else {
      FitsAlready(last.text, room);
      assert Trimmed(panel).blocks == panel.blocks[..n];
    }
  }

  lemma ShortPanelLeads(panel: Panel)
    requires panel.Length() <= PANEL_BUDGET
    ensures Leads(panel, panel)
  {
    hide Fit;
    if |panel.blocks| == 1 {
      assert panel.blocks == [] + [panel.blocks[0]];
      LengthOfOneMore([], panel.blocks[0]);
      FitsAlready(panel.blocks[0].text, PANEL_BUDGET);
    }
    assert panel.blocks[..|panel.blocks|] == panel.blocks;
  }

  /** Within the budget, whatever the panel, and a second time changes nothing. */
  lemma TrimmedFits(panel: Panel)
    ensures Trimmed(panel).Length() <= 3900
    ensures Leads(Trimmed(panel), panel)
    ensures Trimmed(Trimmed(panel)) == Trimmed(panel)
    ensures Trimmed(panel) == panel <==> panel.Length() <= 3900
  {
    hide Leads, Fit;
    if panel.Length() > PANEL_BUDGET {
      LongPanelFits(panel);
    } else {
      ShortPanelLeads(panel);
    }
  }

  lemma FitsAlready(text: string, limit: int)
    requires |text| <= limit
    ensures Fit(text, limit) == text
  {
  }
}
