# StackSellPrice in Dafny

StackSellPrice is a game-client plugin. It rewrites the vendor sell-price line
of an item tooltip. When an item's sell price is shown, the plugin does four
things:

- it reads the stack size from the quantity line, using the first run of digits
  that is followed by a `/`;
- it reads the unit price from the price line, using the first numeral with
  optional `,`/`.` thousands groups;
- it replaces " gil" with the gil icon glyph;
- for a stack of more than one item, it appends a coloured breakdown
  "(x{quantity} = {total}<gil>) ".

A line that already shows the icon is left alone, and so is a price of zero.
The "Market Prohibited" notice is removed from the first payload's text and
appended as the last payload.

The project models the core of `StackSellPrice/Plugin.cs`:

- `Numerals`: decimal numerals and the two library conversions the plugin relies
  on.
  - `ParseUint` is `uint.TryParse` on a regex capture.
  - `GroupThousands` is `ToString("N0")` with `,` groups.
- `Extractor`: the two regular-expression scans and their parses (lines 22-23,
  46-56).
  - Each scan is modelled as the .NET engine runs it: start positions are tried
    left to right, and quantifiers are greedy.
  - `ExtractorFacts` proves each scan equal to an independent description.
    - For the quantity, the capture is the leftmost maximal digit run that
      ends at a `/`.
    - For the price, the capture is the leftmost-longest "grouped numeral".
  - It also proves the price scan reads back the numerals the plugin itself
    prints, and the quantity scan reads back a decimal stack size written
    before a `/`, as the game writes it.
- `ReferencePrice`: `hqAdjustedLuminaPrice` (lines 114-134). The item-sheet
  lookup is a function parameter.
- `Tooltip`: the payload list of a tooltip string and `editTooltip` (lines
  69-112).
  - `TooltipFacts` gives the exact output layout, the notice handling and
    idempotence.
  - `NoticeCounterexample` shows that removing the notice on line 92 can form
    the notice again on a crafted text.
- `Handler`: `addSellStackPrice` past its gating test (lines 46-61), as a pure
  function from the two tooltip strings to the payloads written back.
- `Strings` / `StringFacts`: ordinal `Contains` and `Replace` (left to right,
  non-overlapping), with the lemmas the rest needs.
- `Wrappers`: `Option`.

Integer widths are explicit:

- stack size and price are `uint32` (values up to 2^32 - 1);
- `price * quantity` wraps modulo 2^32, as in the unchecked `uint` product on
  line 103;
- the hovered item id is a `uint64`;
- the sheet key is its low 32 bits, as the `(uint)` cast on line 130 gives.

For a stack, the code appends nine payloads after the original ones: colour,
text, reset, highlight, text, reset, colour, text, reset.

## Model

| member | source | states |
|---|---|---|
| Numerals.ParseUintRoundTrip | StackSellPrice/Plugin.cs:49 | `TryParse` accepts the shortest numeral of every value below 2^32 and returns it, and rejects the numeral of every larger value |
| Numerals.DecimalStringValue | StackSellPrice/Plugin.cs:49 | the shortest decimal numeral of `n` has digit value `n` |
| Numerals.ValueOfConcat | StackSellPrice/Plugin.cs:55 | joining two digit strings shifts the left value by ten to the length of the right one, which is why dropping separators joins the groups into one number |
| Extractor.QuantityMatch | StackSellPrice/Plugin.cs:22 | the match of `(\d+)/` is a maximal digit run followed by '/', and none starts further left; no match exactly when there is no such run |
| Extractor.ExtractQuantity | StackSellPrice/Plugin.cs:48-49 | a stack size is read only when the text has a digit run ending at '/' |
| Extractor.PriceMatch | StackSellPrice/Plugin.cs:23 | there is no match exactly when the text has no digit; otherwise the match starts at the first digit, is a grouped numeral, and no longer span from there is one |
| Extractor.ExtractPrice | StackSellPrice/Plugin.cs:54-55 | a text without digits yields no price |
| ExtractorFacts.QuantityIsLeftmostSlashRun | StackSellPrice/Plugin.cs:46-49 | the stack size is the `TryParse` value of the leftmost maximal digit run ending at '/' |
| ExtractorFacts.QuantityAbsent | StackSellPrice/Plugin.cs:48-49 | with no digit run ending at '/', the handler stops (empty capture fails to parse) |
| ExtractorFacts.QuantityOfNumeral | StackSellPrice/Plugin.cs:46-49 | the digits that follow a digit-free prefix and precede a '/' are what gets parsed |
| ExtractorFacts.QuantityRoundTrip | StackSellPrice/Plugin.cs:48-49 | the numeral of any 32-bit stack size followed by '/' and any text is read back exactly |
| ExtractorFacts.QuantityExampleTooltip | StackSellPrice/Plugin.cs:46 | the line "46/999 (Total: 0 / 46)" gives a stack of 46 |
| ExtractorFacts.QuantityExampleInnerRun | StackSellPrice/Plugin.cs:22 | in "12a34/" only the digits touching the '/' are taken: 34 |
| ExtractorFacts.DropSeparatorsKeepsDigits | StackSellPrice/Plugin.cs:55 | on a capture of digits and separators, the two `Replace` calls leave exactly its digits |
| ExtractorFacts.KeepDigitsConcat | StackSellPrice/Plugin.cs:55 | keeping the digits of a joined text keeps the digits of each part, in order |
| ExtractorFacts.PriceIsLeftmostLongest | StackSellPrice/Plugin.cs:52-55 | the unit price is the `TryParse` value of the digits of the longest grouped numeral starting at the first digit |
| ExtractorFacts.GroupThousandsGrouped | StackSellPrice/Plugin.cs:100 | every `N0` rendering is a grouped numeral of the price pattern |
| ExtractorFacts.AppendGroup | StackSellPrice/Plugin.cs:23 | a grouped numeral followed by ',' and three digits is still one |
| ExtractorFacts.GroupThousandsDigits | StackSellPrice/Plugin.cs:100 | the digits of an `N0` rendering have the value it was written from |
| ExtractorFacts.PriceRoundTrip | StackSellPrice/Plugin.cs:52-55 | any 32-bit price printed with `N0`, after a digit-free prefix and before a non-digit, non-separator character, is read back exactly |
| ExtractorFacts.PriceExampleComma | StackSellPrice/Plugin.cs:23 | "13,000" gives 13000 |
| ExtractorFacts.PriceExampleDot | StackSellPrice/Plugin.cs:23 | "13.000" gives 13000 |
| ExtractorFacts.PriceExampleSellsFor | StackSellPrice/Plugin.cs:52 | "Sells for 33 gil" gives 33 |
| ExtractorFacts.PriceExampleUngrouped | StackSellPrice/Plugin.cs:23 | an ungrouped "1234" gives 123: the leading part takes at most three digits and "4" is no group |
| ExtractorFacts.PriceExampleUnsellable | StackSellPrice/Plugin.cs:52-55 | "Unsellable" with the market notice yields no price |
| ReferencePrice.HqAdjustedPrice | StackSellPrice/Plugin.cs:114-134 | an id in [1000000, 1500000) is looked up 1000000 lower and raised by a tenth rounded up; materia ids are raised the same way under their own id; every other id is the sheet price at its low 32 bits |
| ReferencePrice.HqBandMatchesBaseId | StackSellPrice/Plugin.cs:117-120 | a high-quality id is priced as its base id plus the surcharge, and a materia base id is not surcharged twice |
| ReferencePrice.AdjustmentBounds | StackSellPrice/Plugin.cs:130-131 | the reference price is between the sheet price and the sheet price plus a tenth rounded up |
| ReferencePrice.MateriaBelowHqBand | StackSellPrice/Plugin.cs:117-127 | every materia id lies below the high-quality band, so the two rules never meet |
| ReferencePrice.MateriaExample | StackSellPrice/Plugin.cs:122-128 | Strength Materia 5700 is surcharged although it is not high-quality |
| ReferencePrice.SurchargeExamples | StackSellPrice/Plugin.cs:131 | 33 becomes 37 and 100 becomes 110 |
| Tooltip.WrappedTotal | StackSellPrice/Plugin.cs:103 | the total is the true product whenever that fits in 32 bits |
| Tooltip.EditTooltip | StackSellPrice/Plugin.cs:69-112 | the line is left alone exactly when its text already shows the gil icon or the price is zero; otherwise it grows by 2 payloads for a single item or 9 for a stack, plus 1 for the notice |
| TooltipFacts.TextValueConcat | StackSellPrice/Plugin.cs:84-90 | the text value of two payload lists joined is their text values joined |
| TooltipFacts.SingleItemLayout | StackSellPrice/Plugin.cs:94-97 | single item: highlight, rewritten first text, the other payloads untouched, reset, then the notice exactly when the text had it |
| TooltipFacts.StackLayout | StackSellPrice/Plugin.cs:98-110 | stack: rewritten first text, the other payloads untouched, the nine breakdown payloads with stack size and wrapped total, then the notice exactly when the text had it |
| TooltipFacts.BreakdownReadsBack | StackSellPrice/Plugin.cs:100-103 | the breakdown's two numerals read back with the price scan as the stack size and as the total |
| TooltipFacts.NoticeLastIffPresent | StackSellPrice/Plugin.cs:84 | the output ends with the notice exactly when the input text contained it |
| TooltipFacts.ReferenceIgnored | StackSellPrice/Plugin.cs:78-82 | the hovered item and the sheet never change the rewrite; the reference price is only logged |
| TooltipFacts.FirstTextHasIcon | StackSellPrice/Plugin.cs:90-92 | a text containing " gil" gets the icon in its rewritten first payload |
| TooltipFacts.OutputShowsIcon | StackSellPrice/Plugin.cs:87-107 | the output shows the icon for every stack, and for a single item whose text said " gil" |
| TooltipFacts.EditIdempotent | StackSellPrice/Plugin.cs:70-71 | a rewritten line that shows the icon is refused by a second rewrite, whatever its stack size and price |
| TooltipFacts.IconKeepsWellFormed | StackSellPrice/Plugin.cs:91 | replacing " gil" keeps every ideographic space at the start of a notice |
| TooltipFacts.RemovalClearsNotice | StackSellPrice/Plugin.cs:92 | removing the notices from a text whose ideographic spaces all begin a notice leaves no ideographic space |
| TooltipFacts.FirstTextDropsNotice | StackSellPrice/Plugin.cs:89-92 | in such a text, the rewritten first payload no longer contains the notice |
| NoticeCounterexample.NoticeCanReform | StackSellPrice/Plugin.cs:92 | a crafted text with one notice inside another keeps a notice after the removal |
| Handler.AddSellStackPrice | StackSellPrice/Plugin.cs:46-61 | payloads are written back exactly when both scans read a number, the price is not zero and the price line does not yet show the icon |
| Handler.PricedStringHasPayload | StackSellPrice/Plugin.cs:90 | once a price is read, the price string has a first payload for line 90 to replace |
| HandlerFacts.HandlerIdempotent | StackSellPrice/Plugin.cs:59-60 | after writing back, a second run of the handler writes nothing, for a stack or a line that said " gil" |
| HandlerFacts.HandlerSteps | StackSellPrice/Plugin.cs:48-59 | once both scans succeed, the handler's result is the tooltip rewrite of the price line |
| HandlerFacts.FirstTextOfSellLine | StackSellPrice/Plugin.cs:90-92 | "{head} gil" becomes "{head}<gil>" when the head has no " gil", ideographic space or icon |
| HandlerFacts.StackScenario | StackSellPrice/Plugin.cs:46-108 | 46 items selling for "33 gil" show "Sells for 33<gil>" then "(x46 = " and the highlighted "1,518<gil>" |
| HandlerFacts.UnsellableScenario | StackSellPrice/Plugin.cs:52-55 | an unsellable item's price line is never rewritten |

## Left out

- Plugin construction, listener registration and `Dispose` (lines 31-35, 136 on) are host lifecycle, not logic.
- The gating test on the number array (line 42) reads game memory whose meaning the source does not state. The handler is modelled from the point where it passes.
- Reading the strings out of game memory (`getTooltipString`, lines 64-67) and writing back with `Encode`/`SetValue` (line 60) are I/O. The model works on payload lists, and the handler returns the payloads to write.
- `HoveredItem` and the item sheet (lines 78, 130) are host services. They are parameters: a `uint64` id and a function from row key to `PriceLow`.
- Logging and the price-difference comparison in `double` (lines 50, 56, 74, 81-82, 85, 61) have no effect on the result once the sheet lookup has succeeded. `ReferenceIgnored` states that; the line for it below says what happens when the lookup fails.
- ReferencePrice.HqAdjustedPrice: the result is a natural number, not a `double`. `PriceLow` is a 32-bit integer, so the source's value and its ceiling are exact, and the integer rounding-up division equals `Math.Ceiling` on it.
- `N0` is modelled for a culture with `,` as the group separator and groups of three. Other cultures' separators are not modelled for the output; the scan accepts both `,` and `.`.
- `\d` is modelled as ASCII `0`-`9`. The .NET engine also accepts other Unicode decimal digits, which the game text does not use.
- `uint.TryParse` also accepts leading and trailing whitespace and a leading sign. A regex capture of the two patterns never contains them, so `ParseUint` only handles digit strings.
- Payloads other than text and colour are kept as opaque codes. Only their position in the list matters to the rewrite.
- `SeString.ToString()` and `TextValue` are both modelled as the concatenation of the text payloads.
- TooltipFacts.ReferenceIgnored: the sheet is a total function, so every key is assumed to have an item row. In the source, line 130 throws on an id without a row; `editTooltip` then exits before line 90 and nothing is written back. That failure comes from the sheet library, which is not part of this model.
- TooltipFacts.FirstTextDropsNotice: it assumes every ideographic space in the text begins the market notice, which is how the game writes it. Without that assumption the property fails: `NoticeCounterexample.NoticeCanReform` shows a text where removing the notice on line 92 forms a new one.
