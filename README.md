# Movie-sales tree map: the logic behind the picture

`app.js` draws a tree map of movie sales with d3: every genre of the JSON
document is a group of leaves (`name`, `category`, `value`), each leaf is a
tile with its name written inside, a legend lists the genres, and a tooltip
follows the mouse. Almost all of it is drawing. This project models the
parts that are the program's own logic and proves what they guarantee:

- **Preparation** (`preparation.dfy`, module `Preparation`): before the
  layout, each genre's `children` array is sorted in place by descending
  `value` with the comparator `b.value - a.value`. The sort is modelled as an
  in-place stable insertion sort on an `array<Leaf>`. It is proved equal to a
  functional specification `SortDesc`, and `SortDesc` is proved ordered, a
  permutation, stable and idempotent. `Prepare` runs it over every genre and
  leaves the genres themselves (names, order, array identities) alone.
- **Label word wrap** (`label_wrap.dfy`, module `LabelWrap`): a tile's label
  is `name.trim().split(/(?=[A-Z][^A-Z:\s\-\.])/g)`. `Trim` removes the
  ECMAScript white space and line terminators from both ends. `SplitFrom` follows
  the language's split loop for a separator that matches the empty string.
  A lookahead match at `q` cuts there only when `q` is not the start of the
  current piece. After a cut, the search resumes at the cut.
- **Placement** (`labels.dfy`, module `Labels`): token `i` of a label is a
  `tspan` at x = 2, y = 10 + 12·i; legend entry `i` is translated to
  (100·i, 15) with a 25×25 swatch and its text at (30, 17), in a legend 700
  pixels wide.
- **Tooltip** (`tooltip.dfy`, module `TooltipState`; `decimal.dfy`, module
  `Decimal`): the html `getTooltipHtml` builds for a leaf, with a parser that
  reads the leaf back from it. The `Tooltip` class holds the element's
  visibility, its three data attributes and its html. `OnMouseOver` and
  `OnMouseLeave` change them as the two handlers do. Integer values are
  written as decimal numerals, with a parser as the partner.
- `movies.dfy` (module `Movies`) holds the data: `Leaf` is a value, and
  `Genre` is a class whose `children` array is sorted in place.
  `options.dfy` holds `Option`.

The code is followed where a plain description would differ. A blank name
(empty after trimming) still yields one label line, the empty string, because
`"".split(re)` is `[""]`. A capital letter is a cut point only when some
character follows it and that character is not a capital, `:`, white space,
`-` or `.`. So a trailing capital never splits, and a capital followed by
another capital is never a cut point: a run of capitals stays whole, except
that its last capital starts a new token when a lower-case letter follows it
(`USA` stays whole, `USAir` gives `US`, `Air`).

## Model

| member | source | states |
|---|---|---|
| Preparation.SortChildren | app.js:31 | the array afterwards is `SortDesc` of the array before, in non-increasing order of value and a permutation of it |
| Preparation.InsertAt | app.js:31 | one pass of the in-place sort: the prefix up to `i` becomes the stable insertion of `a[i]` into the sorted prefix, the rest is untouched |
| Preparation.Prepare | app.js:30-32 | every genre's children end up as `SortDesc` of their old contents, ordered and a permutation; genre names, the genre order, the children arrays' identity and the genre-name list used at app.js:88 are unchanged |
| Preparation.SortDescOrdered | app.js:31 | the specification's result is in non-increasing order of value |
| Preparation.SortDescPermutes | app.js:31 | the specification's result has exactly the input's leaves (multiset equality) |
| Preparation.SortDescStable | app.js:31 | leaves with equal value keep their relative order, as the language's stable sort guarantees |
| Preparation.SortDescOfOrdered | app.js:30-32 | children already in non-increasing order are left exactly as they are |
| Preparation.SortDescIdempotent | app.js:30-32 | sorting sorted children again changes nothing |
| Preparation.InsertKeepsOrder | app.js:31 | inserting a leaf into ordered children keeps them ordered |
| Preparation.InsertPermutes | app.js:31 | inserting adds exactly the one leaf |
| Preparation.InsertStable | app.js:31 | inserting puts the new leaf after every earlier leaf of the same value |
| Preparation.InsertPosition | app.js:31 | the insertion lands right after the last leaf that does not give way to it |
| LabelWrap.TrimStart | app.js:114 | the result is a suffix of the input, only white space was dropped, and it does not start with white space |
| LabelWrap.TrimEnd | app.js:114 | the result is a prefix of the input, only white space was dropped, and it does not end with white space |
| LabelWrap.Trim | app.js:114 | the result is no longer than the input and neither starts nor ends with white space |
| LabelWrap.TrimIsInfix | app.js:114 | `trim` returns the infix of the name between a run of leading and a run of trailing white space |
| LabelWrap.TrimIdempotent | app.js:114 | trimming twice is trimming once |
| LabelWrap.SplitFromReassembles | app.js:91 | the pieces of the split loop concatenate to the scanned rest of the string; there is at least one piece |
| LabelWrap.SplitFromWordStarts | app.js:91 | every piece after the first starts with a capital followed by a character outside `[A-Z:\s\-.]` |
| LabelWrap.SplitFromMaximal | app.js:91 | no position inside a piece, other than its start, is one where the lookahead matches |
| LabelWrap.WordWrapReassembles | app.js:114 | the label's tokens concatenate to exactly the trimmed name |
| LabelWrap.WordWrapNonEmpty | app.js:114 | for a name that is not blank every token is non-empty; a blank name gives the single token `""` |
| LabelWrap.WordWrapWordStarts | app.js:114 | every token after the first begins with an upper-case letter followed by a character that is not `A-Z`, `:`, white space, `-` or `.` |
| LabelWrap.WordWrapMaximal | app.js:114 | the split is maximal: no position inside a token, other than its start, is a cut point |
| LabelWrap.WordWrapSingleLine | app.js:114 | a name is drawn on one line if and only if no position after its first character is a cut point |
| LabelWrap.SplitFromSkip | app.js:91 | scanning over positions that are not cut points does not change the pieces |
| LabelWrap.CamelPair | app.js:114 | a word without inner capitals followed by a capitalised word of at least two letters splits into exactly those two words |
| LabelWrap.WordWrapCamelPair | app.js:114 | a name made of such a pair, with no white space at either end, is drawn as exactly those two words |
| Labels.LabelLinesStack | app.js:116-117 | a label has at least one line, the first at y = 10, all at x = 2, and line j lies 12·(j − i) below line i |
| Labels.LabelLinesSpellName | app.js:114-120 | the lines hold the word-wrap tokens in order, and read top to bottom they spell the trimmed name |
| Labels.LegendRow | app.js:128-144 | one entry per genre in genre order, all at y = 15 with a square swatch left of the text; entry j sits 100·(j − i) right of entry i, past entry i's text start |
| Labels.LegendSwatchVisible | app.js:131-135 | the swatch of entry i fits in the 700-pixel legend if and only if i < 7 |
| Decimal.NatDigits | app.js:59 | at least one digit, all digits, and no leading zero except for 0 itself |
| Decimal.NumeralCanonical | app.js:59 | the numeral has a minus sign exactly for negative values, then only digits and no leading zero |
| Decimal.NumeralRoundTrip | app.js:59 | reading the numeral back gives the value |
| Decimal.DigitsValueOfNatDigits | app.js:59 | the digits of n have value n |
| TooltipState.TooltipHtmlRoundTrip | app.js:53-60 | when name and category hold no `<`, name, category and value can be read back from the html |
| TooltipState.TooltipHtmlInjective | app.js:53-60 | for such leaves, two leaves have the same html if and only if they are the same leaf |
| TooltipState.KidsTooltipHtml | app.js:59 | the leaf "Kids", "Animation", 100 gets `<p>Name: Kids<br>Category: Animation<br>Value: 100</p>` |
| TooltipState.Tooltip.constructor | app.js:40-51 | the element starts hidden, with no data attributes and empty html |
| TooltipState.Tooltip.OnMouseOver | app.js:69-76 | sets data-name, data-category and data-value to the leaf's fields, the html to the leaf's tooltip html, and makes the element visible |
| TooltipState.Tooltip.OnMouseLeave | app.js:78-80 | sets only the visibility to hidden; attributes and html keep their values |
| TooltipState.HoverScenario | app.js:69-80 | hidden, then visible with the Kids leaf's html, then hidden with the same html still in place |

## Left out

- Fetching the data with `d3.json` and the top-level `await` (app.js:7-9, app.js:29): I/O. `Prepare` takes the genres as a parameter.
- The treemap layout, `d3.hierarchy().sum` and `d3.treemap()` (app.js:82-86, app.js:94), and the tile sizes taken from it (app.js:106-107): library code producing floating-point rectangles.
- The colour scale over `d3.schemeDark2` (app.js:89-90, app.js:109, app.js:136): its behaviour belongs to d3.
- `onMouseMove` (app.js:62-67): it reads the element's rendered width from the DOM and the mouse position.
- Selection, append, attribute and style plumbing, the SVG and DOM building and the event binding (app.js:34-51, app.js:93-144): side effects with no logic of their own. Only the numbers and strings they write are modelled.
- Leaf.value: values are integers. In the JSON document the values are numeric strings. The comparator's subtraction coerces them to numbers, but `${value}` and `data-value` show the string exactly as written, so a string like `"007"` or `"1e3"` would appear verbatim. Non-integer, `NaN` and missing values are not modelled either. Nor are integers of magnitude above 2^53: the comparator compares them after rounding to the nearest double, so two that round to the same double compare equal and keep their input order, where `SortDesc` orders them by their exact values.
- Decimal.Numeral: values of magnitude 10^21 and above, which the language writes in exponent form, are written in plain digits here.
- TooltipState.TooltipHtmlRoundTrip: proved only for names and categories without `<`. The source inserts them into the html without escaping, so a name holding markup cannot be read back.
- Preparation.Prepare: requires the genres' children arrays to be distinct objects. A parsed JSON document never shares an array between two genres.
- Preparation.SortChildren: the language leaves the sorting algorithm to the engine. Only its observable result (a stable sort) is fixed, and this model uses insertion sort to get it.
- LabelWrap.SplitFrom: characters are Dafny `char`s, not UTF-16 code units, and the split's length limit of 2^32 − 1 pieces is not modelled.
- Labels.LegendSwatchVisible: it concerns only the swatch. The width of the genre name text depends on font rendering and is not modelled.
