/** `addSellStackPrice` past its gating bit: read the stack size and the unit
    price from the two tooltip strings, rewrite the price string, and hand back
    the payloads to write when the rewrite applies. */
module Handler {
  import opened Wrappers
  import opened Numerals
  import opened Extractor
  import opened Tooltip

  /** Lines 46-61. `None`: nothing is written back. The hovered item and the
      sheet lookup stand for the host's `HoveredItem` and item sheet. */
  function AddSellStackPrice(quantityString: seq<Payload>, priceString: seq<Payload>,
                             hoveredItem: uint64, priceLow: uint32 -> uint32): (r: Option<seq<Payload>>)
    ensures r.Some? <==>
              && ExtractQuantity(TextValue(quantityString)).Some?
              && ExtractPrice(TextValue(priceString)).Some?
              && ExtractPrice(TextValue(priceString)).value != 0
              && !Strings.Contains(TextValue(priceString), GilIcon)
  {
    match ExtractQuantity(TextValue(quantityString))
    case None => None
    case Some(quantity) =>
      match ExtractPrice(TextValue(priceString))
      case None => None
      case Some(price) =>
        PricedStringHasPayload(priceString);
        EditTooltip(priceString, quantity, price, hoveredItem, priceLow)
  }

  /** A price was read, so the string has a payload for line 90 to replace. */
  lemma PricedStringHasPayload(ps: seq<Payload>)
    requires ExtractPrice(TextValue(ps)).Some?
    ensures |ps| > 0
  {
  }
}

module HandlerFacts {
  import opened Wrappers
  import opened Strings
  import opened StringFacts
  import opened Numerals
  import opened Extractor
  import opened ExtractorFacts
  import opened Tooltip
  import opened TooltipFacts
  import opened Handler

  /** Writing the result back and running the handler again changes nothing
      more, once the icon is in: for a stack, or when the price said " gil". */
  lemma HandlerIdempotent(quantityString: seq<Payload>, priceString: seq<Payload>,
                          hoveredItem: uint64, priceLow: uint32 -> uint32,
                          quantityString2: seq<Payload>, hoveredItem2: uint64, priceLow2: uint32 -> uint32)
    requires AddSellStackPrice(quantityString, priceString, hoveredItem, priceLow).Some?
    requires ExtractQuantity(TextValue(quantityString)).value > 1 || Contains(TextValue(priceString), GilWord)
    ensures var written := AddSellStackPrice(quantityString, priceString, hoveredItem, priceLow).value;
            AddSellStackPrice(quantityString2, written, hoveredItem2, priceLow2) == None
  {
    var quantity := ExtractQuantity(TextValue(quantityString)).value;
    var price := ExtractPrice(TextValue(priceString)).value;
    PricedStringHasPayload(priceString);
    OutputShowsIcon(priceString, quantity, price, hoveredItem, priceLow);
    var written := AddSellStackPrice(quantityString, priceString, hoveredItem, priceLow).value;
    ContainsChar(TextValue(written), GilGlyph);
  }

  /** "Sells for {n} gil" is rewritten into "Sells for {n}<gil>". */
  lemma FirstTextOfSellLine(head: string)
    requires forall i :: 0 <= i < |head| ==> !StartsAt(head + GilWord, i, GilWord)
    requires IdeographicSpace !in head && GilGlyph !in head
    ensures FirstText(head + GilWord) == head + GilIcon
    ensures !Contains(head + GilWord, MarketProhibited)
    ensures !Contains(head + GilWord, GilIcon)
  {
    ReplaceKeepsPrefix(head, GilWord, GilWord, GilIcon);
    assert GilWord[4..] == "";
    assert Replace(GilWord, GilWord, GilIcon) == GilIcon;
    NoticeShape();
    NoNoticeWithoutSpace(head + GilIcon);
    ReplaceAbsent(head + GilIcon, MarketProhibited, "");
    NoNoticeWithoutSpace(head + GilWord);
    ContainsChar(head + GilWord, GilGlyph);
  }

  lemma NoNoticeWithoutSpace(s: string)
    requires IdeographicSpace !in s
    ensures !Contains(s, MarketProhibited)
  {
    NoticeShape();
    forall i | 0 <= i <= |s| ensures !StartsAt(s, i, MarketProhibited) {
      if i + 18 <= |s| {
        assert s[i..i + 18][0] == s[i];
      }
    }
  }

  /** The stack example: 46 items selling for 33 gil each show
      "Sells for 33<gil>(x46 = 1,518<gil>) " with the documented colours. */
  lemma StackScenario(quantityString: seq<Payload>, priceString: seq<Payload>,
                      hoveredItem: uint64, priceLow: uint32 -> uint32)
    requires quantityString == [Text("46/999 (Total: 0 / 46)")]
    requires priceString == [Text("Sells for 33 gil")]
    ensures AddSellStackPrice(quantityString, priceString, hoveredItem, priceLow)
         == Some([Text("Sells for 33" + GilIcon)] + Breakdown(46, 33))
    ensures Breakdown(46, 33)
         == [ Foreground(3), Text("(x46 = "), Foreground(0),
              Foreground(529), Text("1,518" + GilIcon), Foreground(0),
              Foreground(3), Text(") "), Foreground(0) ]
  {
    var head := "Sells for 33";
    SellLineHead(head);
    ScenarioQuantity(quantityString);
    ScenarioPrice(priceString);
    StackOfSellLineHandled(quantityString, priceString, head, 46, 33, hoveredItem, priceLow);
    BreakdownExample();
  }

  lemma StackOfSellLineHandled(quantityString: seq<Payload>, priceString: seq<Payload>, head: string,
                               quantity: uint32, price: uint32, hoveredItem: uint64, priceLow: uint32 -> uint32)
    requires ExtractQuantity(TextValue(quantityString)) == Some(quantity)
    requires ExtractPrice(TextValue(priceString)) == Some(price)
    requires priceString == [Text(head + GilWord)]
    requires forall i :: 0 <= i < |head| ==> !StartsAt(head + GilWord, i, GilWord)
    requires IdeographicSpace !in head && GilGlyph !in head
    requires quantity > 1 && price > 0
    ensures AddSellStackPrice(quantityString, priceString, hoveredItem, priceLow)
         == Some([Text(head + GilIcon)] + Breakdown(quantity, price))
  {
    HandlerSteps(quantityString, priceString, quantity, price, hoveredItem, priceLow);
    StackOfSellLine(head, quantity, price, hoveredItem, priceLow);
  }

  lemma ScenarioQuantity(qs: seq<Payload>)
    requires qs == [Text("46/999 (Total: 0 / 46)")]
    ensures ExtractQuantity(TextValue(qs)) == Some(46)
  {
    assert TextValue(qs) == "46/999 (Total: 0 / 46)";
    QuantityExampleTooltip(TextValue(qs));
  }

  lemma ScenarioPrice(ps: seq<Payload>)
    requires ps == [Text("Sells for 33 gil")]
    ensures ExtractPrice(TextValue(ps)) == Some(33)
  {
    assert TextValue(ps) == "Sells for 33 gil";
    PriceExampleSellsFor();
  }

  /** Both scans succeed: the handler is the tooltip rewrite. */
  lemma HandlerSteps(quantityString: seq<Payload>, priceString: seq<Payload>,
                     quantity: uint32, price: uint32, hoveredItem: uint64, priceLow: uint32 -> uint32)
    requires ExtractQuantity(TextValue(quantityString)) == Some(quantity)
    requires ExtractPrice(TextValue(priceString)) == Some(price)
    ensures |priceString| > 0
    ensures AddSellStackPrice(quantityString, priceString, hoveredItem, priceLow)
         == EditTooltip(priceString, quantity, price, hoveredItem, priceLow)
  {
    PricedStringHasPayload(priceString);
  }

  /** A one-payload "{head} gil" price line for a stack. */
  lemma StackOfSellLine(head: string, quantity: uint32, price: uint32,
                        hoveredItem: uint64, priceLow: uint32 -> uint32)
    requires forall i :: 0 <= i < |head| ==> !StartsAt(head + GilWord, i, GilWord)
    requires IdeographicSpace !in head && GilGlyph !in head
    requires quantity > 1 && price > 0
    ensures EditTooltip([Text(head + GilWord)], quantity, price, hoveredItem, priceLow)
         == Some([Text(head + GilIcon)] + Breakdown(quantity, price))
  {
    var ps := [Text(head + GilWord)];
    assert TextValue(ps) == head + GilWord;
    FirstTextOfSellLine(head);
    assert !Contains(TextValue(ps), GilIcon) && !Contains(TextValue(ps), MarketProhibited);
    var front := [Text(FirstText(TextValue(ps)))] + ps[1..];
    assert front == [Text(head + GilIcon)];
    assert EditTooltip(ps, quantity, price, hoveredItem, priceLow)
        == Some(front + Breakdown(quantity, price) + []);
    assert front + Breakdown(quantity, price) + [] == [Text(head + GilIcon)] + Breakdown(quantity, price);
  }

  lemma BreakdownExample()
    ensures Breakdown(46, 33)
         == [ Foreground(3), Text("(x46 = "), Foreground(0),
              Foreground(529), Text("1,518" + GilIcon), Foreground(0),
              Foreground(3), Text(") "), Foreground(0) ]
  {
    var bs := Breakdown(46, 33);
    assert GroupThousands(46) == "46";
    assert bs[1] == Text("(x46 = ");
    assert WrappedTotal(46, 33) == 1518;
    assert GroupThousands(1518) == "1,518";
    assert bs[4] == Text("1,518" + GilIcon);
  }

  lemma SellLineHead(head: string)
    requires head == "Sells for 33"
    ensures forall i :: 0 <= i < |head| ==> !StartsAt(head + GilWord, i, GilWord)
    ensures IdeographicSpace !in head && GilGlyph !in head
    ensures head + GilWord == "Sells for 33 gil"
  {
    var s := head + GilWord;
    forall i | 0 <= i < 12 ensures !StartsAt(s, i, GilWord) {
      assert s[i..i + 4][0] == s[i] && s[i..i + 4][1] == s[i + 1];
    }
  }

  /** An unsellable item carries no numeral, so nothing is written. */
  lemma UnsellableScenario(quantityString: seq<Payload>, hoveredItem: uint64, priceLow: uint32 -> uint32)
    ensures AddSellStackPrice(quantityString, [Text("Unsellable" + MarketProhibited)],
                              hoveredItem, priceLow) == None
  {
    assert TextValue([Text("Unsellable" + MarketProhibited)]) == "Unsellable\U{3000}Market Prohibited";
    PriceExampleUnsellable();
  }
}
