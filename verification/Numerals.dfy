/** Runs of decimal digits and the numbers Python's `int` reads from them. */
module Numerals {
  import Canonical
  import opened Wrappers

  /** Python's `\d`, `\w` and `\s`, of which only this much is used; the value of a decimal digit of
      any script; and the number of digits beyond which `int` refuses a text. */
  datatype CharClasses = CharClasses(
    digit: char -> bool, word: char -> bool, space: char -> bool, digitValue: char -> nat, maxDigits: nat) {

    /** Digits are word characters and blanks are not. */
    ghost predicate Apart() { forall c :: (digit(c) ==> word(c)) && (space(c) ==> !word(c)) }

    ghost predicate Valid() {
      && Apart() && (forall c :: digit(c) ==> digitValue(c) < 10)
      && (forall c :: Canonical.IsDigit(c) ==> digit(c) && digitValue(c) == c as int - '0' as int)
      && (forall c :: c in "【CARD_NAME】" ==> !digit(c))
      && !word('【') && !word('】')
      && (forall c :: 'a' <= c <= 'z' ==> word(c) && !digit(c))
      && space(' ')
    }
  }

  ghost predicate AllDigits(cs: CharClasses, run: string) {
    |run| > 0 && forall i :: 0 <= i < |run| ==> cs.digit(run[i])
  }

  /** The number a run of digits stands for. */
  function ValueOf(cs: CharClasses, run: string): nat {
    if |run| == 0 then 0 else 10 * ValueOf(cs, run[..|run| - 1]) + cs.digitValue(run[|run| - 1])
  }

  /** `int(run)`; `None` stands for the ValueError of a run that is too long. */
  function ToInt(cs: CharClasses, run: string): Option<nat> {
    if |run| <= cs.maxDigits then Some(ValueOf(cs, run)) else None
  }

  function ToInts(cs: CharClasses, runs: seq<string>): (r: Option<seq<nat>>)
    ensures r.Some? <==> forall i :: 0 <= i < |runs| ==> |runs[i]| <= cs.maxDigits
    ensures r.Some? ==> |r.value| == |runs|
    ensures r.Some? ==> forall i :: 0 <= i < |runs| ==> r.value[i] == ValueOf(cs, runs[i])
  {
    if |runs| == 0 then Some([])
    else
      var first, rest := ToInt(cs, runs[0]), ToInts(cs, runs[1..]);
      if first.None? || rest.None? then None else Some([first.value] + rest.value)
  }

  // ----- printing a number that was read -----

  predicate AllAscii(t: string) { forall i :: 0 <= i < |t| ==> Canonical.IsDigit(t[i]) }

  /** The decimal text of a number: ASCII digits without a leading zero. */
  predicate PlainDecimal(run: string) {
    |run| > 0 && AllAscii(run) && (|run| == 1 || run[0] != '0')
  }

  /** Length, where everything but an ASCII digit counts double. */
  function Weight(t: string): nat {
    if |t| == 0 then 0 else Weight(t[..|t| - 1]) + if Canonical.IsDigit(t[|t| - 1]) then 1 else 2
  }

  lemma WeightSnoc(t: string, c: char)
    ensures Weight(t + [c]) == Weight(t) + if Canonical.IsDigit(c) then 1 else 2
  {
    assert (t + [c])[..|t|] == t;
  }

  lemma {:induction false} WeightConcat(a: string, b: string)
    ensures Weight(a + b) == Weight(a) + Weight(b)
  {
    if |b| == 0 {
      assert a + b == a;
    } else {
      var front, last := b[..|b| - 1], b[|b| - 1];
      WeightConcat(a, front);
      WeightSnoc(a + front, last);
      assert a + b == a + front + [last];
    }
  }

  lemma {:induction false} WeightOfText(t: string)
    ensures Weight(t) >= |t| && (Weight(t) == |t| <==> AllAscii(t))
  {
    if |t| > 0 { WeightOfText(t[..|t| - 1]); }
  }

  /** `reprinted` has no more weight than `run`, and as much exactly when `run` is a plain decimal,
      which it then equals. */
  ghost predicate Reprints(reprinted: string, run: string) {
    && Weight(reprinted) <= Weight(run)
    && (Weight(reprinted) == Weight(run) <==> PlainDecimal(run))
    && (PlainDecimal(run) <==> reprinted == run)
  }

  lemma WeightOfOne(c: char)
    ensures Weight([c]) == if Canonical.IsDigit(c) then 1 else 2
    ensures PlainDecimal([c]) <==> Canonical.IsDigit(c)
  {
    WeightSnoc("", c);
    assert "" + [c] == [c] && [c][0] == c;
  }

  lemma ValueOfOne(cs: CharClasses, c: char)
    ensures ValueOf(cs, [c]) == cs.digitValue(c)
  {
    assert [c][..0] == "";
  }

  lemma ReprintDigit(cs: CharClasses, c: char)
    requires cs.Valid() && cs.digit(c)
    ensures Reprints(Canonical.NatText(ValueOf(cs, [c])), [c])
  {
    var d := Canonical.Digit(cs.digitValue(c));
    ValueOfOne(cs, c);
    WeightOfOne(c);
    WeightOfOne(d);
    assert [c][0] == c && [d][0] == d;
    if Canonical.IsDigit(c) { DigitPrints(c); }
  }

  lemma DigitPrints(c: char)
    requires Canonical.IsDigit(c)
    ensures Canonical.Digit(c as int - '0' as int) == c
  {
    assert Canonical.DIGITS == ['0', '1', '2', '3', '4', '5', '6', '7', '8', '9'];
  }

  lemma ValueSnoc(cs: CharClasses, front: string, last: char)
    ensures ValueOf(cs, front + [last]) == 10 * ValueOf(cs, front) + cs.digitValue(last)
  {
    assert (front + [last])[..|front|] == front;
  }

  lemma PlainSnoc(front: string, last: char)
    requires front != ""
    ensures PlainDecimal(front + [last]) <==> AllAscii(front) && Canonical.IsDigit(last) && front[0] != '0'
  {
    var run := front + [last];
    assert forall i :: 0 <= i < |front| ==> run[i] == front[i];
    assert run[|front|] == last;
  }

  /** After leading zeros only the last digit is printed. */
  lemma ReprintAfterZeros(cs: CharClasses, front: string, last: char)
    requires cs.Valid() && front != "" && cs.digit(last) && ValueOf(cs, front) == 0
    requires Reprints(Canonical.NatText(ValueOf(cs, front)), front)
    ensures Reprints(Canonical.NatText(ValueOf(cs, front + [last])), front + [last])
  {
    var reprinted := Canonical.NatText(ValueOf(cs, front + [last]));
    ValueSnoc(cs, front, last);
    PlainSnoc(front, last);
    WeightOfText(front);
    WeightOfText(reprinted);
    WeightSnoc(front, last);
    assert |reprinted| == 1 && AllAscii(reprinted);
    assert Canonical.NatText(0) == "0";
  }

  lemma NatTextSnoc(n: nat, d: nat)
    requires n > 0 && d < 10
    ensures Canonical.NatText(10 * n + d) == Canonical.NatText(n) + [Canonical.Digit(d)]
  {
    assert (10 * n + d) / 10 == n && (10 * n + d) % 10 == d;
  }

  /** One more digit behind a number that is not zero is printed behind it. */
  lemma ReprintMore(n: nat, d: nat, front: string, last: char)
    requires n > 0 && d < 10 && front != "" && Reprints(Canonical.NatText(n), front)
    requires Canonical.IsDigit(last) ==> last == Canonical.Digit(d)
    requires |front| == 1 && AllAscii(front) ==> front[0] != '0'
    ensures Reprints(Canonical.NatText(10 * n + d), front + [last])
  {
    var text, digit := Canonical.NatText(n), Canonical.Digit(d);
    NatTextSnoc(n, d);
    PlainSnoc(front, last);
    WeightSnoc(front, last);
    WeightSnoc(text, digit);
    if text + [digit] == front + [last] {
      assert (text + [digit])[..|text|] == text && (front + [last])[..|front|] == front;
      assert (text + [digit])[|text|] == digit && (front + [last])[|front|] == last;
    }
  }

  lemma ReprintAfterNumber(cs: CharClasses, front: string, last: char)
    requires cs.Valid() && front != "" && cs.digit(last) && ValueOf(cs, front) > 0
    requires Reprints(Canonical.NatText(ValueOf(cs, front)), front)
    ensures Reprints(Canonical.NatText(ValueOf(cs, front + [last])), front + [last])
  {
    ValueSnoc(cs, front, last);
    DigitValues(cs, last);
    NoSingleZero(cs, front);
    ReprintMore(ValueOf(cs, front), cs.digitValue(last), front, last);
  }

  lemma DigitValues(cs: CharClasses, c: char)
    requires cs.Valid() && cs.digit(c)
    ensures cs.digitValue(c) < 10 && (Canonical.IsDigit(c) ==> c == Canonical.Digit(cs.digitValue(c)))
  {
    if Canonical.IsDigit(c) { DigitPrints(c); }
  }

  lemma NoSingleZero(cs: CharClasses, front: string)
    requires cs.Valid() && front != "" && ValueOf(cs, front) > 0
    ensures |front| == 1 && AllAscii(front) ==> front[0] != '0'
  {
    if |front| == 1 && AllAscii(front) { assert Canonical.IsDigit(front[0]); }
  }

  /** What printing the value of a captured run does: the run comes back exactly when it is a plain
      decimal, and anything else loses weight. */
  lemma {:induction false} ReprintRun(cs: CharClasses, run: string)
    requires cs.Valid() && AllDigits(cs, run)
    ensures Reprints(Canonical.NatText(ValueOf(cs, run)), run)
  {
    var front, last := run[..|run| - 1], run[|run| - 1];
    assert run == front + [last];
    if front == "" {
      ReprintDigit(cs, last);
      assert run == [last];
    } else {
      ReprintRun(cs, front);
      if ValueOf(cs, front) == 0 {
        ReprintAfterZeros(cs, front, last);
      } else {
        ReprintAfterNumber(cs, front, last);
      }
    }
  }
}
