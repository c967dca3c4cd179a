/** Where the text of a tile and the legend entries are drawn: the tspan
    offsets of a tile label (app.js:111-120) and the legend row
    (app.js:128-144). */
module Labels {
  import opened LabelWrap

  /** One `tspan` line of a tile label, relative to the tile's corner. */
  datatype Line = Line(x: int, y: int, text: string)

  /** The label of a tile: token `i` of the word-wrapped name is drawn at
      x = 2, y = 10 + i * 12. */
  function LabelLines(name: string): seq<Line> {
    var ts := WordWrap(name);
    seq(|ts|, i requires 0 <= i < |ts| => Line(2, 10 + i * 12, ts[i]))
  }

  function Texts(ls: seq<Line>): seq<string> {
    seq(|ls|, i requires 0 <= i < |ls| => ls[i].text)
  }

  /** The lines stack downwards from y = 10, one 12-pixel step apart, all
      at x = 2. */
  lemma LabelLinesStack(name: string)
    ensures var ls := LabelLines(name);
      |ls| >= 1 && ls[0].y == 10 &&
      (forall i :: 0 <= i < |ls| ==> ls[i].x == 2) &&
      (forall i, j :: 0 <= i < j < |ls| ==> ls[i].y < ls[j].y && ls[j].y - ls[i].y == 12 * (j - i))
  {
    WordWrapReassembles(name);
  }

  /** Read top to bottom, the lines spell the trimmed name, each line
      holding one token of the word wrap. */
  lemma LabelLinesSpellName(name: string)
    ensures Texts(LabelLines(name)) == WordWrap(name)
    ensures Concat(Texts(LabelLines(name))) == Trim(name)
  {
    assert Texts(LabelLines(name)) == WordWrap(name);
    WordWrapReassembles(name);
  }

  /** One legend entry: a group translated to (tx, ty) holding a swatch of
      the given size at its origin and the genre's name at (textX, textY). */
  datatype Entry = Entry(tx: int, ty: int, swatchWidth: int, swatchHeight: int,
                         textX: int, textY: int, name: string)

  const LegendWidth := 700

  /** The legend: genre `i` at `translate(i * 100, 15)`, a 25 by 25 swatch,
      its name at (30, 17). */
  function LegendEntries(genres: seq<string>): seq<Entry> {
    seq(|genres|, i requires 0 <= i < |genres| => Entry(i * 100, 15, 25, 25, 30, 17, genres[i]))
  }

  /** The entries form one row in genre order; each swatch and the start of
      each name lie left of the next entry. */
  lemma LegendRow(genres: seq<string>)
    ensures var es := LegendEntries(genres);
      |es| == |genres| &&
      (forall i :: 0 <= i < |es| ==> es[i].name == genres[i] && es[i].ty == 15) &&
      (forall i :: 0 <= i < |es| ==>
        es[i].swatchWidth < es[i].textX && es[i].swatchWidth == es[i].swatchHeight) &&
      (forall i, j :: 0 <= i < j < |es| ==>
        es[i].tx + es[i].textX < es[j].tx && es[j].tx - es[i].tx == 100 * (j - i))
  {
  }

  /** The legend is 700 pixels wide and never wraps: the swatch of entry
      `i` lies inside it exactly when `i < 7`. */
  lemma LegendSwatchVisible(genres: seq<string>, i: nat)
    requires i < |genres|
    ensures var e := LegendEntries(genres)[i];
      (0 <= e.tx && e.tx + e.swatchWidth <= LegendWidth) <==> i < 7
  {
  }
}
