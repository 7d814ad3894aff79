/** The text side of the statistics counters in Script.js. A counter such as `1234+`
    is read once for its target (all its digits, read as one number, or 0 when there
    are none); every tick then writes the current whole number followed by the
    element's non-digit characters, and the last tick writes the target itself. */
module Animations {
  import opened Numerals

  predicate NoDigits(s: string) {
    forall i :: 0 <= i < |s| ==> !IsDigit(s[i])
  }

  /** `text.replace(/\D/g, '')`: the digits of `text`, in order. */
  function Digits(text: string): (r: string)
    ensures AllDigits(r) && |r| <= |text|
  {
    if text == [] then []
    else (if IsDigit(text[0]) then [text[0]] else []) + Digits(text[1..])
  }

  /** `text.replace(/\d/g, '')`: everything in `text` except its digits, in order. */
  function NonDigits(text: string): (r: string)
    ensures NoDigits(r)
    ensures |r| <= |text|
  {
    if text == [] then []
    else (if IsDigit(text[0]) then [] else [text[0]]) + NonDigits(text[1..])
  }

  /** `parseInt(text.replace(/\D/g, '')) || 0`: with no digits `parseInt` yields NaN,
      which `|| 0` turns into 0. */
  function Target(text: string): nat {
    var ds := Digits(text);
    if ds == [] then 0 else DigitsValue(ds)
  }

  /** The text a counter shows when its animation has finished. */
  function FinalText(text: string): string {
    NatToString(Target(text)) + NonDigits(text)
  }

  /** The two filters split the text: each character goes to exactly one of them. */
  lemma {:induction false} DigitsAndNonDigitsPartition(text: string)
    ensures multiset(Digits(text)) + multiset(NonDigits(text)) == multiset(text)
  {
    if text != [] {
      var c, rest := text[0], text[1..];
      DigitsAndNonDigitsPartition(rest);
      assert text == [c] + rest;
      assert multiset(text) == multiset{c} + multiset(rest);
      if IsDigit(c) {
        assert Digits(text) == [c] + Digits(rest);
        assert NonDigits(text) == NonDigits(rest);
      } else {
        assert Digits(text) == Digits(rest);
        assert NonDigits(text) == [c] + NonDigits(rest);
      }
    }
  }

  lemma {:induction false} DigitsAppend(a: string, b: string)
    ensures Digits(a + b) == Digits(a) + Digits(b)
  {
    if a == [] {
      assert a + b == b;
    } else {
      var x := if IsDigit(a[0]) then [a[0]] else [];
      assert (a + b)[0] == a[0];
      assert (a + b)[1..] == a[1..] + b;
      calc {
        Digits(a + b);
        x + Digits(a[1..] + b);
        { DigitsAppend(a[1..], b); }
        x + (Digits(a[1..]) + Digits(b));
        (x + Digits(a[1..])) + Digits(b);
        Digits(a) + Digits(b);
      }
    }
  }

  lemma {:induction false} NonDigitsAppend(a: string, b: string)
    ensures NonDigits(a + b) == NonDigits(a) + NonDigits(b)
  {
    if a == [] {
      assert a + b == b;
    } else {
      var x := if IsDigit(a[0]) then [] else [a[0]];
      assert (a + b)[0] == a[0];
      assert (a + b)[1..] == a[1..] + b;
      calc {
        NonDigits(a + b);
        x + NonDigits(a[1..] + b);
        { NonDigitsAppend(a[1..], b); }
        x + (NonDigits(a[1..]) + NonDigits(b));
        (x + NonDigits(a[1..])) + NonDigits(b);
        NonDigits(a) + NonDigits(b);
      }
    }
  }

  lemma {:induction false} DigitsOfAllDigits(s: string)
    requires AllDigits(s)
    ensures Digits(s) == s && NonDigits(s) == []
  {
    if s != [] {
      DigitsOfAllDigits(s[1..]);
    }
  }

  lemma {:induction false} DigitsOfNoDigits(s: string)
    requires NoDigits(s)
    ensures Digits(s) == [] && NonDigits(s) == s
  {
    if s != [] {
      DigitsOfNoDigits(s[1..]);
    }
  }

  /** The number a tick writes adds only digits, so the text after it keeps the
      non-digit characters it had, and its digits are exactly the number's. */
  lemma {:induction false} NumberThenText(n: nat, s: string)
    ensures NonDigits(NatToString(n) + s) == NonDigits(s)
    ensures Digits(NatToString(n) + NonDigits(s)) == NatToString(n)
  {
    NonDigitsAppend(NatToString(n), s);
    DigitsOfAllDigits(NatToString(n));
    DigitsAppend(NatToString(n), NonDigits(s));
    DigitsOfNoDigits(NonDigits(s));
  }

  /** A finished counter still reads as the same target and keeps the same non-digit
      characters, so finishing again changes nothing. */
  lemma {:induction false} FinalTextIsStable(text: string)
    ensures Target(FinalText(text)) == Target(text)
    ensures NonDigits(FinalText(text)) == NonDigits(text)
    ensures FinalText(FinalText(text)) == FinalText(text)
  {
    var n := Target(text);
    NumberThenText(n, text);
    NumberThenText(n, NonDigits(text));
    DigitsOfNoDigits(NonDigits(text));
    ValueOfNatToString(n);
  }

  /** A counter written as a number in shortest form followed by text without digits
      ends exactly as it started. */
  lemma {:induction false} CanonicalCounterEndsUnchanged(n: nat, suffix: string)
    requires NoDigits(suffix)
    ensures FinalText(NatToString(n) + suffix) == NatToString(n) + suffix
  {
    NumberThenText(n, suffix);
    DigitsOfNoDigits(suffix);
    ValueOfNatToString(n);
  }

  /** `1234+` ends as `1234+`. */
  lemma {:induction false} Counter1234Plus()
    ensures FinalText("1234+") == "1234+"
  {
    assert NatToString(1234) == "1234" by {
      assert NatToString(1) == "1";
      assert NatToString(12) == "12";
      assert NatToString(123) == "123";
    }
    assert "1234+" == NatToString(1234) + "+";
    CanonicalCounterEndsUnchanged(1234, "+");
  }

  /** Every non-digit character ends up after the number, including those that stood
      before or between the digits: `1,000+` ends as `1000,+`. */
  lemma {:induction false} NonDigitsMoveAfterNumber()
    ensures FinalText("1,000+") == "1000,+"
  {
    var text := "1,000+";
    NatToString1000();
    FiltersOfSample();
    ValueOfNatToString(1000);
    assert Target(text) == 1000;
  }

  lemma {:induction false} NatToString1000()
    ensures NatToString(1000) == "1000"
  {
    assert NatToString(1) == "1";
    assert NatToString(10) == "10";
    assert NatToString(100) == "100";
  }

  lemma {:induction false} FiltersOfSample()
    ensures Digits("1,000+") == "1000" && NonDigits("1,000+") == ",+"
  {
    var text := "1,000+";
    assert text[1..] == ",000+" && text[2..] == "000+" && text[3..] == "00+";
    assert text[4..] == "0+" && text[5..] == "+" && text[6..] == [];
  }

  /** A `.stat-number` or `.cta-number` element: its text and its `data-animated` flag. */
  class CounterElement {
    var text: string
    var animated: bool

    constructor (text: string)
      ensures this.text == text && !animated
    {
      this.text := text;
      animated := false;
    }

    /** `animateCounter`. `frames` are the whole numbers `Math.floor(current)` takes at
        the ticks before `current` reaches the target; the last tick writes the target. */
    method Animate(frames: seq<nat>)
      modifies this
      ensures text == FinalText(old(text)) && animated == old(animated)
    {
      var target := Target(text);
      ghost var start := text;
      var i := 0;
      while i < |frames|
        invariant 0 <= i <= |frames|
        invariant NonDigits(text) == NonDigits(start) && target == Target(start)
        invariant animated == old(animated)
      {
        var suffix := NonDigits(text);
        NumberThenText(frames[i], suffix);
        DigitsOfNoDigits(suffix);
        text := NatToString(frames[i]) + suffix;
        i := i + 1;
      }
      var suffix := NonDigits(text);
      text := NatToString(target) + suffix;
    }

    /** The intersection observer's callback for this element: the first time it is
        seen intersecting, it is flagged and animated; later sightings do nothing. */
    method Observe(isIntersecting: bool, frames: seq<nat>)
      modifies this
      ensures animated == (old(animated) || isIntersecting)
      ensures text == if isIntersecting && !old(animated) then FinalText(old(text)) else old(text)
    {
      if isIntersecting && !animated {
        animated := true;
        Animate(frames);
      }
    }
  }
}
