/** The two first-match regex scans of `addSellStackPrice`: the stack size
    `(\d+)/` and the unit price `\d{1,3}(?:[.,]\d{3})*`, each followed by
    `uint.TryParse` of the captured group. The engine tries start positions
    from left to right and takes the first one at which the pattern matches;
    quantifiers are greedy. */
module Extractor {
  import opened Wrappers
  import opened Strings
  import opened Numerals

  predicate IsSeparator(c: char) {
    c == ',' || c == '.'
  }

  /** Length of the maximal digit run starting at `i`. */
  function DigitRun(s: string, i: nat): (n: nat)
    requires i <= |s|
    ensures i + n <= |s|
    ensures forall k :: i <= k < i + n ==> IsDigit(s[k])
    ensures i + n == |s| || !IsDigit(s[i + n])
    decreases |s| - i
  {
    if i < |s| && IsDigit(s[i]) then 1 + DigitRun(s, i + 1) else 0
  }

  // ---------------------------------------------------------------------
  // Quantity: (\d+)/

  /** `(\d+)/` matches at `i`: a digit there, and the greedy run it starts is
      followed by '/' (giving digits back cannot help, '/' is not a digit). */
  predicate QuantityMatchesAt(s: string, i: nat) {
    i < |s| && IsDigit(s[i]) && i + DigitRun(s, i) < |s| && s[i + DigitRun(s, i)] == '/'
  }

  /** Reference description of the capture: a maximal run of digits
      `s[a..b]` immediately followed by '/'. */
  predicate SlashRun(s: string, a: nat, b: nat) {
    && a < b < |s|
    && (forall k :: a <= k < b ==> IsDigit(s[k]))
    && s[b] == '/'
    && (a == 0 || !IsDigit(s[a - 1]))
  }

  function QuantityScan(s: string, i: nat): (r: Option<nat>)
    requires i <= |s|
    ensures r.Some? ==> i <= r.value && QuantityMatchesAt(s, r.value)
    ensures r.Some? ==> forall k :: i <= k < r.value ==> !QuantityMatchesAt(s, k)
    ensures r.None? ==> forall k :: i <= k ==> !QuantityMatchesAt(s, k)
    decreases |s| - i
  {
    if i == |s| then None
    else if QuantityMatchesAt(s, i) then Some(i)
    else QuantityScan(s, i + 1)
  }

  /** The span `(start, end)` of the first match's capture group. */
  function QuantityMatch(s: string): (r: Option<(nat, nat)>)
    ensures r.Some? ==> SlashRun(s, r.value.0, r.value.1)
    ensures r.Some? ==> forall a: nat, b: nat :: a < r.value.0 ==> !SlashRun(s, a, b)
    ensures r.None? ==> forall a: nat, b: nat :: !SlashRun(s, a, b)
  {
    match QuantityScan(s, 0)
    case None =>
      forall a: nat, b: nat | SlashRun(s, a, b) ensures QuantityMatchesAt(s, a) {
        DigitsToSlash(s, a, b);
      }
      None
    case Some(a) =>
      var b := a + DigitRun(s, a);
      assert a == 0 || !IsDigit(s[a - 1]) by {
        if a > 0 && IsDigit(s[a - 1]) {
          assert DigitRun(s, a - 1) == 1 + DigitRun(s, a);
          assert QuantityMatchesAt(s, a - 1);
        }
      }
      forall a': nat, b': nat | a' < a && SlashRun(s, a', b') ensures QuantityMatchesAt(s, a') {
        DigitsToSlash(s, a', b');
      }
      Some((a, b))
  }

  /** Digits from `a` up to a '/' at `b`: the pattern matches at `a` and its
      greedy run ends at the '/'. */
  lemma {:induction false} DigitsToSlash(s: string, a: nat, b: nat)
    requires a < b < |s| && s[b] == '/'
    requires forall k :: a <= k < b ==> IsDigit(s[k])
    ensures QuantityMatchesAt(s, a) && a + DigitRun(s, a) == b
    decreases b - a
  {
    if a + 1 < b {
      DigitsToSlash(s, a + 1, b);
    }
  }

  /** Lines 48-49: the first capture parsed as `uint`; no match or overflow
      means the event is skipped. */
  function ExtractQuantity(s: string): (r: Option<uint32>)
    ensures r.Some? ==> exists a: nat, b: nat :: SlashRun(s, a, b)
  {
    var group := match QuantityMatch(s)
      case None => ""
      case Some((a, b)) => s[a..b];
    ParseUint(group)
  }

  // ---------------------------------------------------------------------
  // Price: \d{1,3}(?:[.,]\d{3})*

  /** Reference description of the pattern: one to three digits, then any
      number of groups of a separator and exactly three digits. The length
      fixes the leading part: it is `|w| % 4` characters long. */
  predicate GroupedNumeral(w: string) {
    var lead := |w| % 4;
    && lead != 0
    && forall p :: 0 <= p < |w| ==>
         if lead <= p && (p - lead) % 4 == 0 then IsSeparator(w[p]) else IsDigit(w[p])
  }

  /** The text carries no digit at all. */
  predicate NoDigit(s: string) {
    forall k :: 0 <= k < |s| ==> !IsDigit(s[k])
  }

  /** A separator followed by three digits begins at `p`. */
  predicate GroupAt(s: string, p: nat) {
    p + 4 <= |s| && IsSeparator(s[p]) && IsDigit(s[p + 1]) && IsDigit(s[p + 2]) && IsDigit(s[p + 3])
  }

  /** Greedy `(?:[.,]\d{3})*` from `p`: the end of the last whole group. */
  function GroupsEnd(s: string, p: nat): (e: nat)
    requires p <= |s|
    ensures p <= e <= |s| && (e - p) % 4 == 0
    ensures forall q :: p <= q < e ==>
              if (q - p) % 4 == 0 then IsSeparator(s[q]) else IsDigit(s[q])
    ensures !GroupAt(s, e)
    decreases |s| - p
  {
    if GroupAt(s, p) then GroupsEnd(s, p + 4) else p
  }

  function FirstDigit(s: string, i: nat): (r: Option<nat>)
    requires i <= |s|
    ensures r.Some? ==> i <= r.value < |s| && IsDigit(s[r.value])
    ensures r.Some? ==> forall k :: i <= k < r.value ==> !IsDigit(s[k])
    ensures r.None? ==> forall k :: i <= k < |s| ==> !IsDigit(s[k])
    decreases |s| - i
  {
    if i == |s| then None
    else if IsDigit(s[i]) then Some(i)
    else FirstDigit(s, i + 1)
  }

  /** The first match of the price pattern. The pattern matches at every
      digit, so the engine starts at the first digit; `\d{1,3}` takes as many
      digits as it can, up to three, and the group repetition is greedy. */
  function PriceMatch(s: string): (r: Option<(nat, nat)>)
    ensures r.None? <==> NoDigit(s)
    ensures r.Some? ==> var (a, b) := r.value;
      && a < b <= |s|
      && IsDigit(s[a]) && (forall k :: 0 <= k < a ==> !IsDigit(s[k]))
      && GroupedNumeral(s[a..b])
      && forall b' :: b < b' <= |s| ==> !GroupedNumeral(s[a..b'])
  {
    match FirstDigit(s, 0)
    case None => None
    case Some(a) =>
      var lead := if DigitRun(s, a) < 3 then DigitRun(s, a) else 3;
      var b := GroupsEnd(s, a + lead);
      LeadAndGroups(s, a, lead, b);
      Some((a, b))
  }

  /** The greedy match is a grouped numeral and no longer prefix from `a` is. */
  lemma LeadAndGroups(s: string, a: nat, lead: nat, b: nat)
    requires a < |s| && IsDigit(s[a])
    requires lead == if DigitRun(s, a) < 3 then DigitRun(s, a) else 3
    requires b == GroupsEnd(s, a + lead)
    ensures GroupedNumeral(s[a..b])
    ensures forall b' :: b < b' <= |s| ==> !GroupedNumeral(s[a..b'])
  {
    var w := s[a..b];
    assert |w| % 4 == lead;
    forall p | 0 <= p < |w|
      ensures if lead <= p && (p - lead) % 4 == 0 then IsSeparator(w[p]) else IsDigit(w[p])
    {
      assert w[p] == s[a + p];
      if p >= lead {
        assert (a + p) - (a + lead) == p - lead;
      }
    }
    forall b' | b < b' <= |s| ensures !GroupedNumeral(s[a..b']) {
      LongerNotGrouped(s, a, lead, b, b');
    }
  }

  lemma LongerNotGrouped(s: string, a: nat, lead: nat, b: nat, b': nat)
    requires a < |s| && IsDigit(s[a])
    requires lead == if DigitRun(s, a) < 3 then DigitRun(s, a) else 3
    requires b == GroupsEnd(s, a + lead)
    requires b < b' <= |s|
    ensures !GroupedNumeral(s[a..b'])
  {
    var w' := s[a..b'];
    var lead' := |w'| % 4;
    if lead' == 0 {
    } else if lead' < lead {
      // the pattern wants a separator where the lead still has a digit
      assert w'[lead'] == s[a + lead'];
      Violates(w', lead');
    } else if lead' > lead {
      // the lead is the whole digit run, which the pattern would extend
      assert w'[lead] == s[a + lead];
      Violates(w', lead);
    } else {
      MissingGroup(s, a, lead, b, b');
    }
  }

  /** Same lead length, so the longer candidate has one more whole group at
      `b`, where the greedy scan found none. */
  lemma MissingGroup(s: string, a: nat, lead: nat, b: nat, b': nat)
    requires a + lead <= b < b' <= |s|
    requires (b - (a + lead)) % 4 == 0
    requires 0 < lead < 4 && (b' - a) % 4 == lead
    requires !GroupAt(s, b)
    ensures !GroupedNumeral(s[a..b'])
  {
    var w' := s[a..b'];
    var e := b - a;
    assert e + 4 <= |w'|;
    assert w'[e] == s[b] && w'[e + 1] == s[b + 1] && w'[e + 2] == s[b + 2] && w'[e + 3] == s[b + 3];
    if !IsSeparator(s[b]) {
      Violates(w', e);
    } else if !IsDigit(s[b + 1]) {
      Violates(w', e + 1);
    } else if !IsDigit(s[b + 2]) {
      Violates(w', e + 2);
    } else {
      Violates(w', e + 3);
    }
  }

  /** One position that breaks the pattern is enough. */
  lemma Violates(w: string, p: nat)
    requires p < |w|
    requires !(if |w| % 4 <= p && (p - |w| % 4) % 4 == 0 then IsSeparator(w[p]) else IsDigit(w[p]))
    ensures !GroupedNumeral(w)
  {
  }

  /** Lines 54-55: strip ',' then '.' from the capture. */
  function DropSeparators(g: string): (r: string) {
    Replace(Replace(g, ",", ""), ".", "")
  }

  /** Lines 54-55: the capture with separators removed, parsed as `uint`; no
      digit at all or overflow means the event is skipped. */
  function ExtractPrice(s: string): (r: Option<uint32>)
    ensures NoDigit(s) ==> r.None?
  {
    var group := match PriceMatch(s)
      case None => ""
      case Some((a, b)) => s[a..b];
    ParseUint(DropSeparators(group))
  }
}

module ExtractorFacts {
  import opened Wrappers
  import opened Strings
  import opened Numerals
  import opened Extractor

  // ---------------------------------------------------------------------
  // Quantity

  /** The extracted stack size is the value of the leftmost maximal digit run
      followed by '/', whenever it fits in a `uint`. */
  lemma QuantityIsLeftmostSlashRun(s: string, a: nat, b: nat)
    requires SlashRun(s, a, b)
    requires forall a': nat, b': nat :: a' < a ==> !SlashRun(s, a', b')
    ensures ExtractQuantity(s) == ParseUint(s[a..b])
  {
    var m := QuantityMatch(s);
    var (a', b') := m.value;
    assert a' == a;
  }

  /** Without any digit run followed by '/', the event is skipped. */
  lemma QuantityAbsent(s: string)
    requires forall a: nat, b: nat :: !SlashRun(s, a, b)
    ensures ExtractQuantity(s) == None
  {
  }

  /** A text that reads "{digits}/{anything}" after a digit-free prefix yields
      exactly those digits, parsed as `uint`. */
  lemma QuantityOfNumeral(p: string, ds: string, t: string)
    requires NoDigit(p)
    requires |ds| > 0 && AllDigits(ds)
    ensures ExtractQuantity(p + ds + "/" + t) == ParseUint(ds)
  {
    var s := p + ds + "/" + t;
    var a, b := |p|, |p| + |ds|;
    assert s[a..b] == ds;
    assert forall k :: a <= k < b ==> s[k] == ds[k - a];
    assert SlashRun(s, a, b);
    forall a': nat, b': nat | a' < a ensures !SlashRun(s, a', b') {
      assert s[a'] == p[a'];
    }
    QuantityIsLeftmostSlashRun(s, a, b);
  }

  /** The numeral of any 32-bit stack size is read back exactly. */
  lemma QuantityRoundTrip(n: uint32, t: string)
    ensures ExtractQuantity(DecimalString(n) + "/" + t) == Some(n)
  {
    assert "" + DecimalString(n) + "/" + t == DecimalString(n) + "/" + t;
    QuantityOfNumeral("", DecimalString(n), t);
    ParseUintRoundTrip(n);
  }

  lemma DecimalString46()
    ensures DecimalString(46) == "46"
  {
  }

  /** The tooltip line "46/999 (Total: 0 / 46)" gives a stack of 46. */
  lemma QuantityExampleTooltip(s: string)
    requires s == "46/999 (Total: 0 / 46)"
    ensures ExtractQuantity(s) == Some(46)
  {
    var t := "999 (Total: 0 / 46)";
    DecimalString46();
    assert s == "46" + "/" + t;
    QuantityRoundTrip(46, t);
  }

  /** Only the digits touching the '/' are taken: "12a34/" gives 34. */
  lemma QuantityExampleInnerRun(s: string)
    requires s == "12a34/"
    ensures ExtractQuantity(s) == Some(34)
  {
    forall a': nat, b': nat | a' < 3 ensures !SlashRun(s, a', b') {
      assert !IsDigit(s[2]);
    }
    assert SlashRun(s, 3, 5);
    QuantityIsLeftmostSlashRun(s, 3, 5);
    assert s[3..5] == DecimalString(34);
    ParseUintRoundTrip(34);
  }

  // ---------------------------------------------------------------------
  // Price

  /** Reference meaning of stripping the separators: keep the digits. */
  function KeepDigits(g: string): (r: string)
    ensures AllDigits(r)
    ensures |r| <= |g|
  {
    if |g| == 0 then ""
    else (if IsDigit(g[0]) then [g[0]] else []) + KeepDigits(g[1..])
  }

  lemma {:induction false} KeepDigitsConcat(x: string, y: string)
    ensures KeepDigits(x + y) == KeepDigits(x) + KeepDigits(y)
    decreases |x|
  {
    if |x| == 0 {
      assert x + y == y;
    } else {
      var h: string := if IsDigit(x[0]) then [x[0]] else [];
      assert (x + y)[0] == x[0];
      assert (x + y)[1..] == x[1..] + y;
      assert KeepDigits(x + y) == h + KeepDigits(x[1..] + y);
      assert KeepDigits(x) == h + KeepDigits(x[1..]);
      KeepDigitsConcat(x[1..], y);
    }
  }

  lemma {:induction false} KeepDigitsOfDigits(ds: string)
    requires AllDigits(ds)
    ensures KeepDigits(ds) == ds
    decreases |ds|
  {
    if |ds| > 0 {
      KeepDigitsOfDigits(ds[1..]);
    }
  }

  /** On a capture made of digits and separators, the two `Replace` calls keep
      exactly the digits. */
  lemma {:induction false} DropSeparatorsKeepsDigits(g: string)
    requires forall k :: 0 <= k < |g| ==> IsDigit(g[k]) || IsSeparator(g[k])
    ensures DropSeparators(g) == KeepDigits(g)
    decreases |g|
  {
    if |g| > 0 {
      var head, tail := g[..1], g[1..];
      assert g == head + tail;
      ReplaceCharConcat(head, tail, ',', "");
      ReplaceCharConcat(Replace(head, ",", ""), Replace(tail, ",", ""), '.', "");
      DropSeparatorsKeepsDigits(tail);
    }
  }

  /** The extracted unit price is the digits of the leftmost-longest grouped
      numeral, parsed as `uint`. */
  lemma PriceIsLeftmostLongest(s: string, a: nat, b: nat)
    requires a < b <= |s| && IsDigit(s[a]) && NoDigit(s[..a])
    requires GroupedNumeral(s[a..b])
    requires forall b' :: b < b' <= |s| ==> !GroupedNumeral(s[a..b'])
    ensures ExtractPrice(s) == ParseUint(KeepDigits(s[a..b]))
  {
    assert forall k :: 0 <= k < a ==> s[..a][k] == s[k];
    var m := PriceMatch(s);
    var (a', b') := m.value;
    assert a' == a;
    assert b' == b;
    var w := s[a..b];
    assert forall k :: 0 <= k < |w| ==> IsDigit(w[k]) || IsSeparator(w[k]);
    DropSeparatorsKeepsDigits(w);
  }

  lemma {:induction false} DecimalStringShort(n: nat)
    requires n < 1000
    ensures |DecimalString(n)| <= 3
  {
    if n >= 10 {
      DecimalStringShort(n / 10);
      if n >= 100 {
        assert |DecimalString(n / 10)| <= 2 by { DecimalStringShorter(n / 10); }
      }
    }
  }

  lemma DecimalStringShorter(n: nat)
    requires n < 100
    ensures |DecimalString(n)| <= 2
  {
  }

  /** `N0` output is a numeral of the price pattern... */
  lemma {:induction false} GroupThousandsGrouped(n: nat)
    ensures GroupedNumeral(GroupThousands(n))
    decreases n
  {
    if n < 1000 {
      DecimalStringShort(n);
    } else {
      GroupThousandsGrouped(n / 1000);
      AppendGroup(GroupThousands(n / 1000), Pad3(n % 1000));
      assert GroupThousands(n) == GroupThousands(n / 1000) + ("," + Pad3(n % 1000));
    }
  }

  /** A grouped numeral stays one when a separator and three digits follow. */
  lemma AppendGroup(x: string, g: string)
    requires GroupedNumeral(x)
    requires |g| == 3 && AllDigits(g)
    ensures GroupedNumeral(x + ("," + g))
  {
    var w := x + ("," + g);
    var lead := |x| % 4;
    var k := |x| / 4;
    assert |x| == 4 * k + lead;
    assert |w| == 4 * (k + 1) + lead;
    assert |w| % 4 == lead;
    forall p | 0 <= p < |w|
      ensures if lead <= p && (p - lead) % 4 == 0 then IsSeparator(w[p]) else IsDigit(w[p])
    {
      if p < |x| {
        assert w[p] == x[p];
      } else if p == |x| {
        assert w[p] == ',';
        assert p - lead == 4 * k;
      } else {
        assert w[p] == g[p - |x| - 1];
        assert p - lead == 4 * k + (p - |x|);
        assert (p - lead) % 4 == p - |x|;
      }
    }
  }

  /** ... whose digits carry the value it was written from. */
  lemma {:induction false} GroupThousandsDigits(n: nat)
    ensures ValueOf(KeepDigits(GroupThousands(n))) == n
    decreases n
  {
    if n < 1000 {
      KeepDigitsOfDigits(DecimalString(n));
      DecimalStringValue(n);
    } else {
      var x := GroupThousands(n / 1000);
      var g := Pad3(n % 1000);
      assert GroupThousands(n) == x + ("," + g);
      KeepDigitsConcat(x, "," + g);
      assert "," + g == [','] + g;
      KeepDigitsConcat([','], g);
      KeepDigitsOfDigits(g);
      assert KeepDigits([',']) == "";
      assert KeepDigits(GroupThousands(n)) == KeepDigits(x) + g;
      GroupThousandsDigits(n / 1000);
      ValueOfConcat(KeepDigits(x), g);
      Pad3Value(n % 1000);
      assert Pow10(3) == 1000;
    }
  }

  /** A price printed with `N0` is read back by the price scan, whatever
      digit-free text precedes it and whatever non-numeral text follows it. */
  lemma PriceRoundTrip(p: string, n: uint32, t: string)
    requires NoDigit(p)
    requires t == [] || (!IsDigit(t[0]) && !IsSeparator(t[0]))
    ensures ExtractPrice(p + GroupThousands(n) + t) == Some(n)
  {
    var g := GroupThousands(n);
    var s := p + g + t;
    var a, b := |p|, |p| + |g|;
    assert s[a..b] == g;
    assert s[..a] == p;
    GroupThousandsGrouped(n);
    forall b' | b < b' <= |s| ensures !GroupedNumeral(s[a..b']) {
      var w := s[a..b'];
      assert w[|g|] == t[0];
      Violates(w, |g|);
    }
    PriceIsLeftmostLongest(s, a, b);
    GroupThousandsDigits(n);
  }

  lemma PriceExampleComma()
    ensures ExtractPrice("13,000") == Some(13000)
  {
    assert GroupThousands(13000) == "13,000";
    assert "" + GroupThousands(13000) + "" == "13,000";
    PriceRoundTrip("", 13000, "");
  }

  /** The '.' separator of other locales is stripped the same way. */
  lemma PriceExampleDot()
    ensures ExtractPrice("13.000") == Some(13000)
  {
    var s := "13.000";
    DotNumeral();
    assert s[0..6] == s && s[..0] == "";
    PriceIsLeftmostLongest(s, 0, 6);
    ParseUintRoundTrip(13000);
  }

  lemma DotNumeral()
    ensures GroupedNumeral("13.000")
    ensures KeepDigits("13.000") == DecimalString(13000)
  {
    var s := "13.000";
    assert |s| % 4 == 2;
    forall p | 0 <= p < |s|
      ensures if 2 <= p && (p - 2) % 4 == 0 then IsSeparator(s[p]) else IsDigit(s[p])
    {
    }
  }

  lemma PriceExampleSellsFor()
    ensures ExtractPrice("Sells for 33 gil") == Some(33)
  {
    assert "Sells for " + GroupThousands(33) + " gil" == "Sells for 33 gil";
    PriceRoundTrip("Sells for ", 33, " gil");
  }

  /** An ungrouped "1234" is read as 123: the leading part stops after three
      digits and no separator follows. */
  lemma PriceExampleUngrouped()
    ensures ExtractPrice("1234") == Some(123)
  {
    var s := "1234";
    assert GroupedNumeral(s[0..3]);
    assert !GroupedNumeral(s[0..4]);
    assert s[..0] == "";
    PriceIsLeftmostLongest(s, 0, 3);
    assert KeepDigits(s[0..3]) == DecimalString(123);
    ParseUintRoundTrip(123);
  }

  /** "Unsellable" with the market notice carries no numeral: skipped. */
  lemma PriceExampleUnsellable()
    ensures ExtractPrice("Unsellable\U{3000}Market Prohibited") == None
  {
    var s := "Unsellable\U{3000}Market Prohibited";
    assert forall k :: 0 <= k < |s| ==> !IsDigit(s[k]);
  }
}
