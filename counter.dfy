/** The click counter component: a count that starts at zero, grows by one
    per click, and is shown on the button as `Clicked <count> time` when the
    count is one and `Clicked <count> times` otherwise. */
module ClickCounter {
  import opened JsNumber

  /** The fixed text before the count on the button. */
  const Prefix: string := "Clicked "

  /** The button's text for a given count. */
  function Label(count: nat): string {
    Prefix + Decimal(count) + " " + (if count == 1 then "time" else "times")
  }

  /** The longest prefix of `s` made of decimal digits. */
  function LeadingDigits(s: string): (d: string)
    ensures d <= s && AllDigits(d)
    ensures |d| < |s| ==> !IsDigit(s[|d|])
  {
    if s == [] || !IsDigit(s[0]) then [] else [s[0]] + LeadingDigits(s[1..])
  }

  /** The count a reader takes from a button text: the number right after
      the prefix. */
  ghost function DisplayedCount(text: string): nat
    requires Prefix <= text
  {
    var digits := LeadingDigits(text[|Prefix|..]);
    DecimalValue(digits)
  }

  /** A run of digits followed by a non-digit is exactly the leading digits. */
  lemma LeadingDigitsOfNumeral(d: string, rest: string)
    requires AllDigits(d)
    requires rest != [] && !IsDigit(rest[0])
    ensures LeadingDigits(d + rest) == d
  {
    var s := d + rest;
    var l := LeadingDigits(s);
    assert |l| == |d|;
    assert l == s[..|d|];
  }

  /** The button text shows the count. */
  lemma LabelShowsCount(count: nat)
    ensures Prefix <= Label(count)
    ensures DisplayedCount(Label(count)) == count
  {
    var text := Label(count);
    var word := if count == 1 then "time" else "times";
    assert text == Prefix + (Decimal(count) + (" " + word));
    assert text[|Prefix|..] == Decimal(count) + (" " + word);
    LeadingDigitsOfNumeral(Decimal(count), " " + word);
    DecimalRoundTrip(count);
  }

  /** Different counts give different button texts. */
  lemma LabelInjective(a: nat, b: nat)
    requires Label(a) == Label(b)
    ensures a == b
  {
    LabelShowsCount(a);
    LabelShowsCount(b);
  }

  /** The text reads `Clicked 1 time` exactly when the count is one. */
  lemma LabelSingular(count: nat)
    ensures Label(count) == "Clicked 1 time" <==> count == 1
  {
    assert Label(1) == "Clicked 1 time";
    if Label(count) == "Clicked 1 time" {
      LabelInjective(count, 1);
    }
  }

  /** The text ends in `times` exactly when the count is not one, zero
      included. */
  lemma LabelPlural(count: nat)
    ensures |Label(count)| >= 5
    ensures Label(count)[|Label(count)| - 5..] == "times" <==> count != 1
  {
    var text := Label(count);
    if count == 1 {
      assert text == "Clicked 1 time";
      assert text[|text| - 5..] == " time";
    } else {
      var head := Prefix + Decimal(count) + " ";
      assert text == head + "times";
      assert text[|text| - 5..] == "times";
    }
  }

  /** The component's state: `count` and, as ghost state, the number of
      clicks since it was created. */
  class Counter {
    var count: nat
    ghost var clicks: nat

    /** The count is the number of clicks: nothing else changes it. */
    ghost predicate Valid()
      reads this
    {
      count == clicks
    }

    /** The component starts at zero. */
    constructor ()
      ensures Valid()
      ensures count == 0 && clicks == 0
    {
      count := 0;
      clicks := 0;
    }

    /** The button's click handler: `setCount(count + 1)`. */
    method HandleClick()
      requires Valid()
      modifies this
      ensures Valid()
      ensures count == old(count) + 1
      ensures clicks == old(clicks) + 1
    {
      count := count + 1;
      clicks := clicks + 1;
    }

    /** The button's text, which shows the number of clicks so far. */
    function Text(): (text: string)
      reads this
      requires Valid()
      ensures Prefix <= text && DisplayedCount(text) == clicks
      ensures text == "Clicked 1 time" <==> clicks == 1
    {
      LabelShowsCount(count);
      LabelSingular(count);
      Label(count)
    }
  }

  /** A fresh counter reads `Clicked 0 times`; after one click it reads
      `Clicked 1 time`, and after a second `Clicked 2 times`. */
  method FirstClicks() returns (before: string, once: string, twice: string)
    ensures before == "Clicked 0 times"
    ensures once == "Clicked 1 time"
    ensures twice == "Clicked 2 times"
  {
    var counter := new Counter();
    before := counter.Text();
    assert Decimal(0) == "0";
    assert before == Label(0) == "Clicked 0 times";
    counter.HandleClick();
    once := counter.Text();
    LabelSingular(1);
    counter.HandleClick();
    twice := counter.Text();
    assert Decimal(2) == "2";
    assert twice == Label(2) == "Clicked 2 times";
  }
}
