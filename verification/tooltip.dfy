/** `editTooltip`: rewrite the vendor-price line of the item tooltip so that
    it shows the gil icon and, for a stack, the unit price times the stack
    size. A tooltip string is a sequence of payloads; only text payloads
    contribute to its text value. */
module Tooltip {
  import opened Wrappers
  import opened Strings
  import opened Numerals
  import opened ReferencePrice

  /** A payload of the game's rich-text string: plain text, a foreground
      colour marker, or any other payload, kept as an opaque code. */
  datatype Payload = Text(text: string) | Foreground(color: nat) | Other(code: nat)

  /** The private-use character the game draws as the gil icon. */
  const GilGlyph: char := '\U{E049}'
  const GilIcon: string := [GilGlyph]
  const GilWord: string := " gil"
  /** U+3000, the space the game puts in front of the market notice. */
  const IdeographicSpace: char := '\U{3000}'
  const MarketProhibited: string := [IdeographicSpace] + "Market Prohibited"

  /** Foreground colour keys used by the rewrite. */
  const Highlight: nat := 529
  const Secondary: nat := 3
  const Reset: nat := 0

  /** `TextValue` / `ToString()`: the text payloads, concatenated. */
  function TextValue(ps: seq<Payload>): (text: string)
    decreases |ps|
  {
    if |ps| == 0 then ""
    else (if ps[0].Text? then ps[0].text else "") + TextValue(ps[1..])
  }

  /** Lines 90-92: the whole text value with " gil" turned into the icon and
      the market notice removed. */
  function FirstText(text: string): (first: string) {
    Replace(Replace(text, GilWord, GilIcon), MarketProhibited, "")
  }

  /** `price * quantity` in an unchecked `uint` context. */
  function WrappedTotal(quantity: uint32, price: uint32): (t: uint32)
    ensures price * quantity < UintLimit ==> t == price * quantity
  {
    (price * quantity) % UintLimit
  }

  /** Lines 99-107: "(x{quantity} = {total}<gil>) " in three colours. */
  function Breakdown(quantity: uint32, price: uint32): (bs: seq<Payload>)
    ensures |bs| == 9 && bs[1].Text? && bs[4].Text?
  {
    [ Foreground(Secondary), Text("(x" + GroupThousands(quantity) + " = "), Foreground(Reset),
      Foreground(Highlight), Text(GroupThousands(WrappedTotal(quantity, price)) + GilIcon), Foreground(Reset),
      Foreground(Secondary), Text(") "), Foreground(Reset) ]
  }

  /** Lines 69-112. `None` is the source's `false` (payloads untouched);
      `Some(ps')` is `true` with the rewritten payloads. The hovered item and
      the sheet only feed the reference price, which the source only logs.
      The source indexes payload 0 once past both guards, so it needs a
      payload there; on an empty string it throws. */
  function EditTooltip(ps: seq<Payload>, quantity: uint32, price: uint32,
                       hoveredItem: uint64, priceLow: uint32 -> uint32): (r: Option<seq<Payload>>)
    requires |ps| > 0 || price == 0
    ensures r.None? <==> Contains(TextValue(ps), GilIcon) || price == 0
    ensures r.Some? ==>
              |r.value| == |ps| + (if quantity <= 1 then 2 else 9)
                                + (if Contains(TextValue(ps), MarketProhibited) then 1 else 0)
  {
    var text := TextValue(ps);
    if Contains(text, GilIcon) then None
    else if price == 0 then None
    else
      var reference := HqAdjustedPrice(hoveredItem, priceLow);
      var prohibited := Contains(text, MarketProhibited);
      var head := [Text(FirstText(text))] + ps[1..];
      var marked :=
        if quantity <= 1 then [Foreground(Highlight)] + head + [Foreground(Reset)]
        else head + Breakdown(quantity, price);
      Some(marked + if prohibited then [Text(MarketProhibited)] else [])
  }
}

module TooltipFacts {
  import opened Wrappers
  import opened Strings
  import opened StringFacts
  import opened Numerals
  import opened Extractor
  import opened ExtractorFacts
  import opened Tooltip

  lemma {:induction false} TextValueConcat(a: seq<Payload>, b: seq<Payload>)
    ensures TextValue(a + b) == TextValue(a) + TextValue(b)
    decreases |a|
  {
    if |a| == 0 {
      assert a + b == b;
    } else {
      assert (a + b)[1..] == a[1..] + b;
      TextValueConcat(a[1..], b);
    }
  }

  /** A character of any text payload is part of the text value. */
  lemma CharInTextPayload(ps: seq<Payload>, i: nat, c: char)
    requires i < |ps| && ps[i].Text? && c in ps[i].text
    ensures c in TextValue(ps)
  {
    assert ps == ps[..i] + [ps[i]] + ps[i + 1..];
    TextValueConcat(ps[..i] + [ps[i]], ps[i + 1..]);
    TextValueConcat(ps[..i], [ps[i]]);
  }

  // ---------------------------------------------------------------------
  // Layout of the rewritten payloads

  /** A single item (lines 94-97, 110): the highlight marker, the rewritten
      first payload, the other original payloads untouched, the reset marker,
      then the notice if there was one. No breakdown. */
  lemma SingleItemLayout(ps: seq<Payload>, quantity: uint32, price: uint32,
                         hoveredItem: uint64, priceLow: uint32 -> uint32)
    requires |ps| > 0 && quantity <= 1
    requires EditTooltip(ps, quantity, price, hoveredItem, priceLow).Some?
    ensures var out := EditTooltip(ps, quantity, price, hoveredItem, priceLow).value;
            var n := |ps|;
            var text := TextValue(ps);
            && out[0] == Foreground(Highlight)
            && out[1] == Text(FirstText(text))
            && out[2..n + 1] == ps[1..]
            && out[n + 1] == Foreground(Reset)
            && (Contains(text, MarketProhibited) ==> |out| == n + 3 && out[n + 2] == Text(MarketProhibited))
            && (!Contains(text, MarketProhibited) ==> |out| == n + 2)
  {
    var text := TextValue(ps);
    var head := [Text(FirstText(text))] + ps[1..];
    var marked := [Foreground(Highlight)] + head + [Foreground(Reset)];
    var notice: seq<Payload> := if Contains(text, MarketProhibited) then [Text(MarketProhibited)] else [];
    assert EditTooltip(ps, quantity, price, hoveredItem, priceLow) == Some(marked + notice);
    var out := marked + notice;
    assert out[2..|ps| + 1] == head[1..] == ps[1..];
  }

  /** A stack (lines 98-108, 110): the rewritten first payload and the other
      original payloads, then exactly the nine breakdown payloads, then the
      notice if there was one. */
  lemma StackLayout(ps: seq<Payload>, quantity: uint32, price: uint32,
                    hoveredItem: uint64, priceLow: uint32 -> uint32)
    requires |ps| > 0 && quantity > 1
    requires EditTooltip(ps, quantity, price, hoveredItem, priceLow).Some?
    ensures var out := EditTooltip(ps, quantity, price, hoveredItem, priceLow).value;
            var n := |ps|;
            var text := TextValue(ps);
            && out[n + 4] == Text(GroupThousands(WrappedTotal(quantity, price)) + GilIcon)
            && out[0] == Text(FirstText(text))
            && out[1..n] == ps[1..]
            && out[n..n + 9] == [ Foreground(Secondary), Text("(x" + GroupThousands(quantity) + " = "),
                                  Foreground(Reset), Foreground(Highlight),
                                  Text(GroupThousands(WrappedTotal(quantity, price)) + GilIcon),
                                  Foreground(Reset), Foreground(Secondary), Text(") "), Foreground(Reset) ]
            && (Contains(text, MarketProhibited) ==> |out| == n + 10 && out[n + 9] == Text(MarketProhibited))
            && (!Contains(text, MarketProhibited) ==> |out| == n + 9)
  {
    var text := TextValue(ps);
    var head := [Text(FirstText(text))] + ps[1..];
    var bs := Breakdown(quantity, price);
    var notice: seq<Payload> := if Contains(text, MarketProhibited) then [Text(MarketProhibited)] else [];
    assert EditTooltip(ps, quantity, price, hoveredItem, priceLow) == Some(head + bs + notice);
    var out := head + bs + notice;
    var first: seq<Payload> := [Text(FirstText(text))];
    assert out == first + ps[1..] + (bs + notice);
    Middle(first, ps[1..], bs + notice);
    Middle(head, bs, notice);
  }

  /** The middle part of a three-part list. */
  lemma Middle<T>(a: seq<T>, b: seq<T>, c: seq<T>)
    ensures (a + b + c)[|a|..|a| + |b|] == b
  {
    var s := a + b + c;
    forall k | 0 <= k < |b| ensures s[|a|..|a| + |b|][k] == b[k] {
      assert s[|a| + k] == b[k];
    }
  }

  /** The breakdown texts read back, with the price scan, as the stack size
      and as the total in 32-bit arithmetic (the true product when it fits). */
  lemma BreakdownReadsBack(quantity: uint32, price: uint32)
    ensures ExtractPrice(Breakdown(quantity, price)[1].text) == Some(quantity)
    ensures ExtractPrice(Breakdown(quantity, price)[4].text) == Some(WrappedTotal(quantity, price))
    ensures price * quantity < UintLimit ==>
              ExtractPrice(Breakdown(quantity, price)[4].text) == Some(price * quantity)
  {
    var total := WrappedTotal(quantity, price);
    var bs := Breakdown(quantity, price);
    assert bs[1] == Text("(x" + GroupThousands(quantity) + " = ");
    assert bs[4] == Text(GroupThousands(total) + GilIcon);
    StackSizeReadsBack(quantity, bs[1].text);
    TotalReadsBack(total, bs[4].text);
  }

  lemma StackSizeReadsBack(quantity: uint32, text: string)
    requires text == "(x" + GroupThousands(quantity) + " = "
    ensures ExtractPrice(text) == Some(quantity)
  {
    assert NoDigit("(x");
    PriceRoundTrip("(x", quantity, " = ");
  }

  lemma TotalReadsBack(total: uint32, text: string)
    requires text == GroupThousands(total) + GilIcon
    ensures ExtractPrice(text) == Some(total)
  {
    assert text == "" + GroupThousands(total) + GilIcon;
    PriceRoundTrip("", total, GilIcon);
  }

  /** The notice is the last payload exactly when the text carried it
      (line 84 and line 110); otherwise the output ends with a reset marker. */
  lemma NoticeLastIffPresent(ps: seq<Payload>, quantity: uint32, price: uint32,
                             hoveredItem: uint64, priceLow: uint32 -> uint32)
    requires |ps| > 0
    requires EditTooltip(ps, quantity, price, hoveredItem, priceLow).Some?
    ensures var out := EditTooltip(ps, quantity, price, hoveredItem, priceLow).value;
            out[|out| - 1] == Text(MarketProhibited) <==> Contains(TextValue(ps), MarketProhibited)
  {
  }

  /** Lines 78-82: the reference price never changes the outcome. */
  lemma ReferenceIgnored(ps: seq<Payload>, quantity: uint32, price: uint32,
                         item1: uint64, sheet1: uint32 -> uint32,
                         item2: uint64, sheet2: uint32 -> uint32)
    requires |ps| > 0 || price == 0
    ensures EditTooltip(ps, quantity, price, item1, sheet1) == EditTooltip(ps, quantity, price, item2, sheet2)
  {
  }

  // ---------------------------------------------------------------------
  // The gil icon and idempotence

  /** Line 91: a text with " gil" gets the icon in its rewritten first
      payload; removing the notice cannot take it away. */
  lemma FirstTextHasIcon(text: string)
    requires Contains(text, GilWord)
    ensures GilGlyph in FirstText(text)
  {
    var once := Replace(text, GilWord, GilIcon);
    ReplaceIntroduces(text, GilWord, GilIcon);
    ContainsChar(once, GilGlyph);
    ReplaceKeepsChar(once, MarketProhibited, "", GilGlyph);
  }

  /** Whenever the rewrite produced the icon, the new text value shows it:
      always for a stack, and for a single item when its text said " gil". */
  lemma OutputShowsIcon(ps: seq<Payload>, quantity: uint32, price: uint32,
                        hoveredItem: uint64, priceLow: uint32 -> uint32)
    requires |ps| > 0
    requires EditTooltip(ps, quantity, price, hoveredItem, priceLow).Some?
    requires quantity > 1 || Contains(TextValue(ps), GilWord)
    ensures GilGlyph in TextValue(EditTooltip(ps, quantity, price, hoveredItem, priceLow).value)
  {
    if quantity > 1 {
      StackShowsIcon(ps, quantity, price, hoveredItem, priceLow);
    } else {
      SingleItemShowsIcon(ps, quantity, price, hoveredItem, priceLow);
    }
  }

  lemma StackShowsIcon(ps: seq<Payload>, quantity: uint32, price: uint32,
                       hoveredItem: uint64, priceLow: uint32 -> uint32)
    requires |ps| > 0 && quantity > 1
    requires EditTooltip(ps, quantity, price, hoveredItem, priceLow).Some?
    ensures GilGlyph in TextValue(EditTooltip(ps, quantity, price, hoveredItem, priceLow).value)
  {
    var out := EditTooltip(ps, quantity, price, hoveredItem, priceLow).value;
    StackLayout(ps, quantity, price, hoveredItem, priceLow);
    TotalShowsIcon(out, |ps|, quantity, price);
  }

  lemma SingleItemShowsIcon(ps: seq<Payload>, quantity: uint32, price: uint32,
                            hoveredItem: uint64, priceLow: uint32 -> uint32)
    requires |ps| > 0 && quantity <= 1 && Contains(TextValue(ps), GilWord)
    requires EditTooltip(ps, quantity, price, hoveredItem, priceLow).Some?
    ensures GilGlyph in TextValue(EditTooltip(ps, quantity, price, hoveredItem, priceLow).value)
  {
    var out := EditTooltip(ps, quantity, price, hoveredItem, priceLow).value;
    SingleItemLayout(ps, quantity, price, hoveredItem, priceLow);
    FirstTextHasIcon(TextValue(ps));
    CharInTextPayload(out, 1, GilGlyph);
  }

  lemma TotalShowsIcon(out: seq<Payload>, n: nat, quantity: uint32, price: uint32)
    requires n + 9 <= |out|
    requires out[n + 4] == Text(GroupThousands(WrappedTotal(quantity, price)) + GilIcon)
    ensures GilGlyph in TextValue(out)
  {
    var total := GroupThousands(WrappedTotal(quantity, price)) + GilIcon;
    assert total[|total| - 1] == GilGlyph;
    CharInTextPayload(out, n + 4, GilGlyph);
  }

  /** A second rewrite of such a result is refused by the icon guard
      (line 70), whatever quantity and price come with it. */
  lemma EditIdempotent(ps: seq<Payload>, quantity: uint32, price: uint32,
                       hoveredItem: uint64, priceLow: uint32 -> uint32,
                       quantity2: uint32, price2: uint32,
                       hoveredItem2: uint64, priceLow2: uint32 -> uint32)
    requires |ps| > 0
    requires EditTooltip(ps, quantity, price, hoveredItem, priceLow).Some?
    requires quantity > 1 || Contains(TextValue(ps), GilWord)
    ensures var out := EditTooltip(ps, quantity, price, hoveredItem, priceLow).value;
            EditTooltip(out, quantity2, price2, hoveredItem2, priceLow2) == None
  {
    var out := EditTooltip(ps, quantity, price, hoveredItem, priceLow).value;
    OutputShowsIcon(ps, quantity, price, hoveredItem, priceLow);
    ContainsChar(TextValue(out), GilGlyph);
    assert |out| > 0;
  }

  // ---------------------------------------------------------------------
  // Removing the market notice (line 92)

  /** Every ideographic space of the text begins the market notice, as in
      every text the game shows. */
  predicate NoticeWellFormed(s: string) {
    forall i :: 0 <= i < |s| && s[i] == IdeographicSpace ==> StartsAt(s, i, MarketProhibited)
  }

  lemma NoticeShape()
    ensures |MarketProhibited| == 18 && MarketProhibited[0] == IdeographicSpace
    ensures forall i :: 0 < i < 18 ==> MarketProhibited[i] != IdeographicSpace
    ensures forall i :: 0 <= i < 18 && i != 7 ==> MarketProhibited[i] != ' '
    ensures MarketProhibited[8] == 'P'
  {
  }

  lemma StartsAtAfter(a: string, x: string, i: nat, pat: string)
    requires StartsAt(x, i, pat)
    ensures StartsAt(a + x, |a| + i, pat)
  {
    assert (a + x)[|a| + i..|a| + i + |pat|] == x[i..i + |pat|];
  }

  lemma WellFormedSuffix(s: string, k: nat)
    requires NoticeWellFormed(s) && k <= |s|
    ensures NoticeWellFormed(s[k..])
  {
    forall i | 0 <= i < |s| - k && s[k..][i] == IdeographicSpace
      ensures StartsAt(s[k..], i, MarketProhibited)
    {
      assert StartsAt(s, k + i, MarketProhibited);
      assert s[k..][i..i + 18] == s[k + i..k + i + 18];
    }
  }

  lemma WellFormedPrepend(c: char, x: string)
    requires c != IdeographicSpace && NoticeWellFormed(x)
    ensures NoticeWellFormed([c] + x)
  {
    forall i | 0 <= i < |x| + 1 && ([c] + x)[i] == IdeographicSpace
      ensures StartsAt([c] + x, i, MarketProhibited)
    {
      StartsAtAfter([c], x, i - 1, MarketProhibited);
    }
  }

  lemma WellFormedNotice(x: string)
    requires NoticeWellFormed(x)
    ensures NoticeWellFormed(MarketProhibited + x)
  {
    NoticeShape();
    var s := MarketProhibited + x;
    forall i | 0 <= i < |s| && s[i] == IdeographicSpace
      ensures StartsAt(s, i, MarketProhibited)
    {
      if i >= 18 {
        assert x[i - 18] == s[i];
        StartsAtAfter(MarketProhibited, x, i - 18, MarketProhibited);
      } else {
        assert i == 0;
        assert s[..18] == MarketProhibited;
      }
    }
  }

  /** " gil" cannot start inside the notice. */
  lemma NoGilInNotice(t: string)
    ensures forall i :: 0 <= i < |MarketProhibited| ==> !StartsAt(MarketProhibited + t, i, GilWord)
  {
    NoticeShape();
    var s := MarketProhibited + t;
    forall i | 0 <= i < 18 ensures !StartsAt(s, i, GilWord) {
      assert s[i] == MarketProhibited[i];
      if i == 7 {
        assert s[8] == 'P';
      }
    }
  }

  /** Turning " gil" into the icon keeps every ideographic space at the start
      of a notice. */
  lemma {:induction false} IconKeepsWellFormed(s: string)
    requires NoticeWellFormed(s)
    ensures NoticeWellFormed(Replace(s, GilWord, GilIcon))
    decreases |s|
  {
    if |s| < |GilWord| {
    } else if s[..|GilWord|] == GilWord {
      WellFormedSuffix(s, 4);
      IconKeepsWellFormed(s[4..]);
      WellFormedPrepend(GilGlyph, Replace(s[4..], GilWord, GilIcon));
    } else if s[0] == IdeographicSpace {
      assert StartsAt(s, 0, MarketProhibited);
      var t := s[18..];
      assert s == MarketProhibited + t;
      NoGilInNotice(t);
      ReplaceKeepsPrefix(MarketProhibited, t, GilWord, GilIcon);
      WellFormedSuffix(s, 18);
      IconKeepsWellFormed(t);
      WellFormedNotice(Replace(t, GilWord, GilIcon));
    } else {
      WellFormedSuffix(s, 1);
      IconKeepsWellFormed(s[1..]);
      WellFormedPrepend(s[0], Replace(s[1..], GilWord, GilIcon));
    }
  }

  /** Removing the notices of a well-formed text leaves no ideographic space. */
  lemma {:induction false} RemovalClearsNotice(s: string)
    requires NoticeWellFormed(s)
    ensures IdeographicSpace !in Replace(s, MarketProhibited, "")
    decreases |s|
  {
    if |s| < |MarketProhibited| {
      forall i | 0 <= i < |s| ensures s[i] != IdeographicSpace {
      }
    } else if s[..|MarketProhibited|] == MarketProhibited {
      WellFormedSuffix(s, 18);
      RemovalClearsNotice(s[18..]);
    } else {
      assert !StartsAt(s, 0, MarketProhibited);
      WellFormedSuffix(s, 1);
      RemovalClearsNotice(s[1..]);
    }
  }

  /** Line 92: in a well-formed text the rewritten first payload no longer
      carries the notice. */
  lemma FirstTextDropsNotice(text: string)
    requires NoticeWellFormed(text)
    ensures !Contains(FirstText(text), MarketProhibited)
  {
    var once := Replace(text, GilWord, GilIcon);
    IconKeepsWellFormed(text);
    RemovalClearsNotice(once);
    var f := FirstText(text);
    forall i | 0 <= i <= |f| ensures !StartsAt(f, i, MarketProhibited) {
      if i + 18 <= |f| {
        assert f[i..i + 18][0] == f[i];
      }
    }
  }
}

module NoticeCounterexample {
  import opened Strings
  import opened StringFacts
  import opened Tooltip
  import opened TooltipFacts

  /** The first fourteen characters of the notice. */
  const OuterHead: string := [IdeographicSpace] + "Market Prohib"
  const OuterTail: string := "ited"

  /** Without the well-formedness hypothesis the notice can survive line 92:
      removing the inner copy joins the two halves of an outer one. The game
      does not show such texts. */
  lemma NoticeCanReform(crafted: string)
    requires crafted == OuterHead + (MarketProhibited + OuterTail)
    ensures && Contains(crafted, MarketProhibited)
            && !NoticeWellFormed(crafted)
            && Contains(FirstText(crafted), MarketProhibited)
  {
    CraftedFacts(crafted);
    TailRemoval();
    HalvesJoin();
    ReformWhenSplit(crafted, OuterHead, OuterTail);
  }

  lemma HalvesJoin()
    ensures OuterHead + OuterTail == MarketProhibited
  {
  }

  /** The general shape: a notice split around a second one. */
  lemma ReformWhenSplit(crafted: string, head: string, tail: string)
    requires crafted == head + (MarketProhibited + tail)
    requires head + tail == MarketProhibited
    requires !Contains(crafted, GilWord)
    requires forall i :: 0 <= i < |head| ==> !StartsAt(crafted, i, MarketProhibited)
    requires Replace(MarketProhibited + tail, MarketProhibited, "") == tail
    ensures Contains(crafted, MarketProhibited)
    ensures Contains(FirstText(crafted), MarketProhibited)
  {
    assert crafted == head + MarketProhibited + tail;
    ContainsInfix(head, MarketProhibited, tail);
    IconlessFirstText(crafted);
    ReplaceKeepsPrefix(head, MarketProhibited + tail, MarketProhibited, "");
    assert StartsAt(MarketProhibited, 0, MarketProhibited);
  }

  lemma IconlessFirstText(text: string)
    requires !Contains(text, GilWord)
    ensures FirstText(text) == Replace(text, MarketProhibited, "")
  {
    ReplaceAbsent(text, GilWord, GilIcon);
  }

  lemma CraftedFacts(crafted: string)
    requires crafted == OuterHead + (MarketProhibited + OuterTail)
    ensures && !NoticeWellFormed(crafted)
            && !Contains(crafted, GilWord)
            && forall i :: 0 <= i < |OuterHead| ==> !StartsAt(crafted, i, MarketProhibited)
  {
    assert |crafted| == 36;
    assert crafted[0..18][14] == IdeographicSpace != MarketProhibited[14];
    assert !StartsAt(crafted, 0, MarketProhibited);
    forall i | 0 <= i <= |crafted| ensures !StartsAt(crafted, i, GilWord) {
      if i + 4 <= |crafted| {
        assert crafted[i..i + 4][1] == crafted[i + 1];
        assert crafted[i..i + 4][0] == crafted[i];
      }
    }
    forall i | 0 < i < 14 ensures !StartsAt(crafted, i, MarketProhibited) {
      assert crafted[i..i + 18][0] == crafted[i];
    }
  }

  lemma TailRemoval()
    ensures Replace(MarketProhibited + OuterTail, MarketProhibited, "") == OuterTail
  {
    var tail := MarketProhibited + OuterTail;
    assert tail[..18] == MarketProhibited;
    assert tail[18..] == OuterTail;
  }
}
