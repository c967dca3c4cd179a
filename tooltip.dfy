/** The tooltip: its html for a leaf (app.js:53-60) and the state the
    mouse handlers change (app.js:40-51, app.js:69-80). */
module TooltipState {
  import opened Options
  import opened Movies
  import opened Decimal

  const NameOpen := "<p>Name: "
  const CategoryOpen := "<br>Category: "
  const ValueOpen := "<br>Value: "
  const Close := "</p>"

  /** `getTooltipHtml`: the three fields of the leaf, labelled, in one
      paragraph. The name and category are inserted as they are. */
  function TooltipHtml(d: Leaf): string {
    NameOpen + d.name + CategoryOpen + d.category + ValueOpen + Numeral(d.value) + Close
  }

  predicate StartsWith(s: string, prefix: string) {
    |s| >= |prefix| && s[..|prefix|] == prefix
  }

  /** The position of the first `c` in `s`, or `|s|` when there is none. */
  function IndexOf(s: string, c: char): (i: nat)
    ensures i <= |s| && (i < |s| ==> s[i] == c)
    ensures forall k :: 0 <= k < i ==> s[k] != c
  {
    if |s| == 0 || s[0] == c then 0 else 1 + IndexOf(s[1..], c)
  }

  /** Reads the leaf back from tooltip html: the name and the category run
      up to the next tag, the value is the numeral before the closing tag. */
  function ParseTooltipHtml(h: string): Option<Leaf> {
    if StartsWith(h, NameOpen) then ParseName(h[|NameOpen|..]) else None
  }

  function ParseName(body: string): Option<Leaf> {
    var i := IndexOf(body, '<');
    var rest := body[i..];
    if StartsWith(rest, CategoryOpen) then ParseCategory(body[..i], rest[|CategoryOpen|..]) else None
  }

  function ParseCategory(name: string, body: string): Option<Leaf> {
    var j := IndexOf(body, '<');
    var rest := body[j..];
    if StartsWith(rest, ValueOpen) then ParseValue(name, body[..j], rest[|ValueOpen|..]) else None
  }

  function ParseValue(name: string, category: string, tail: string): Option<Leaf> {
    if |tail| < |Close| || tail[|tail| - |Close|..] != Close then None
    else
      match ParseNumeral(tail[..|tail| - |Close|])
      case None => None
      case Some(v) => Some(Leaf(name, category, v))
  }

  lemma IndexOfJoin(a: string, b: string, c: char)
    requires c !in a && |b| > 0 && b[0] == c
    ensures IndexOf(a + b, c) == |a|
  {
    assert (a + b)[|a|] == c;
    forall k | 0 <= k < |a| ensures (a + b)[k] != c {
      assert (a + b)[k] == a[k];
    }
  }

  lemma ParseValueOf(name: string, category: string, v: int)
    ensures ParseValue(name, category, Numeral(v) + Close) == Some(Leaf(name, category, v))
  {
    var tail := Numeral(v) + Close;
    assert tail[|tail| - |Close|..] == Close;
    assert tail[..|tail| - |Close|] == Numeral(v);
    NumeralRoundTrip(v);
  }

  lemma ParseCategoryStep(name: string, category: string, tail: string)
    requires '<' !in category
    ensures ParseCategory(name, category + (ValueOpen + tail)) == ParseValue(name, category, tail)
  {
    var body := category + (ValueOpen + tail);
    IndexOfJoin(category, ValueOpen + tail, '<');
    assert body[|category|..] == ValueOpen + tail;
    assert body[..|category|] == category;
    assert (ValueOpen + tail)[..|ValueOpen|] == ValueOpen;
    assert (ValueOpen + tail)[|ValueOpen|..] == tail;
  }

  lemma ParseNameStep(name: string, tail: string)
    requires '<' !in name
    ensures ParseName(name + (CategoryOpen + tail)) == ParseCategory(name, tail)
  {
    var body := name + (CategoryOpen + tail);
    IndexOfJoin(name, CategoryOpen + tail, '<');
    assert body[|name|..] == CategoryOpen + tail;
    assert body[..|name|] == name;
    assert (CategoryOpen + tail)[..|CategoryOpen|] == CategoryOpen;
    assert (CategoryOpen + tail)[|CategoryOpen|..] == tail;
  }

  /** The html, nested the way the parser takes it apart. */
  lemma TooltipHtmlNested(d: Leaf)
    ensures TooltipHtml(d) ==
      NameOpen + (d.name + (CategoryOpen + (d.category + (ValueOpen + (Numeral(d.value) + Close)))))
  {
  }

  lemma ParseTooltipHtmlStep(t: string)
    ensures ParseTooltipHtml(NameOpen + t) == ParseName(t)
  {
    var h := NameOpen + t;
    assert h[..|NameOpen|] == NameOpen && h[|NameOpen|..] == t;
  }

  /** The html carries the hovered leaf: when the name and the category
      hold no tag, the three fields can be read back from it. */
  lemma TooltipHtmlRoundTrip(d: Leaf)
    requires '<' !in d.name && '<' !in d.category
    ensures ParseTooltipHtml(TooltipHtml(d)) == Some(d)
  {
    var t3 := Numeral(d.value) + Close;
    var t2 := d.category + (ValueOpen + t3);
    var t1 := d.name + (CategoryOpen + t2);
    TooltipHtmlNested(d);
    ParseTooltipHtmlStep(t1);
    ParseNameStep(d.name, t2);
    ParseCategoryStep(d.name, d.category, t3);
    ParseValueOf(d.name, d.category, d.value);
  }

  /** Two leaves whose name and category hold no tag get the same html only
      if they are the same leaf. */
  lemma TooltipHtmlInjective(d: Leaf, e: Leaf)
    requires '<' !in d.name && '<' !in d.category
    requires '<' !in e.name && '<' !in e.category
    ensures TooltipHtml(d) == TooltipHtml(e) <==> d == e
  {
    TooltipHtmlRoundTrip(d);
    TooltipHtmlRoundTrip(e);
  }

  lemma NumeralOfHundred()
    ensures Numeral(100) == "100"
  {
    assert DigitChar(0) == '0' && DigitChar(1) == '1';
    assert NatDigits(1) == "1";
    assert NatDigits(10) == "10";
  }

  /** The html of one leaf, written out: "Kids", "Animation", 100. */
  lemma KidsTooltipHtml()
    ensures TooltipHtml(Leaf("Kids", "Animation", 100)) ==
      "<p>Name: " + "Kids" + "<br>Category: " + "Animation" + "<br>Value: " + "100" + "</p>"
  {
    NumeralOfHundred();
  }

  datatype Visibility = Hidden | Visible

  /** The tooltip element: its `visibility` style, its three data
      attributes (absent until the first hover) and its inner html. */
  class Tooltip {
    var visibility: Visibility
    var dataName: Option<string>
    var dataCategory: Option<string>
    var dataValue: Option<string>
    var html: string
    /** The leaf whose fields the element last received, if any. */
    ghost var shown: Option<Leaf>

    /** The element describes `d`: attributes and html all come from it. */
    predicate Shows(d: Leaf)
      reads this
    {
      dataName == Some(d.name) && dataCategory == Some(d.category) &&
      dataValue == Some(Numeral(d.value)) && html == TooltipHtml(d)
    }

    /** Either the element is still blank and hidden, or everything it holds
        describes one leaf; in particular it is never visible while blank. */
    ghost predicate Valid()
      reads this
    {
      match shown
      case None =>
        dataName == None && dataCategory == None && dataValue == None &&
        html == "" && visibility == Hidden
      case Some(d) => Shows(d)
    }

    /** The `div#tooltip` appended with `visibility: hidden` (app.js:40-51). */
    constructor ()
      ensures Valid() && shown == None && visibility == Hidden
    {
      visibility := Hidden;
      dataName, dataCategory, dataValue := None, None, None;
      html := "";
      shown := None;
    }

    /** `onMouseOver`: copies the hovered leaf's fields into the data
        attributes, sets the html and shows the element. */
    method OnMouseOver(d: Leaf)
      modifies this
      ensures Valid() && shown == Some(d)
      ensures visibility == Visible
      ensures dataName == Some(d.name) && dataCategory == Some(d.category)
      ensures dataValue == Some(Numeral(d.value)) && html == TooltipHtml(d)
    {
      dataName := Some(d.name);
      dataCategory := Some(d.category);
      dataValue := Some(Numeral(d.value));
      html := TooltipHtml(d);
      visibility := Visible;
      shown := Some(d);
    }

    /** `onMouseLeave`: hides the element and clears nothing. */
    method OnMouseLeave()
      requires Valid()
      modifies this`visibility
      ensures Valid() && visibility == Hidden
      ensures dataName == old(dataName) && dataCategory == old(dataCategory)
      ensures dataValue == old(dataValue) && html == old(html) && shown == old(shown)
    {
      visibility := Hidden;
    }
  }

  /** Mouse-over then mouse-leave on one leaf ("Kids", "Animation", 100): the
      tooltip goes from hidden to visible with the leaf's text, then back to
      hidden with the text still in place. */
  method HoverScenario() returns (before: Visibility, during: Visibility, after: Visibility, text: string, textAfter: string)
    ensures before == Hidden && during == Visible && after == Hidden
    ensures text == "<p>Name: " + "Kids" + "<br>Category: " + "Animation" + "<br>Value: " + "100" + "</p>"
    ensures textAfter == text
  {
    var t := new Tooltip();
    before := t.visibility;
    var kids := Leaf("Kids", "Animation", 100);
    t.OnMouseOver(kids);
    during, text := t.visibility, t.html;
    t.OnMouseLeave();
    after, textAfter := t.visibility, t.html;
    KidsTooltipHtml();
  }
}
