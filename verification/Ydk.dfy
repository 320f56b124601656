/** The deck-file parser: `parse_ydk` of `experiment/scenario.py`, on decoded text. */
module Ydk {
  import Canonical
  import opened Sequences
  import opened Wrappers

  /** Python's `str.isspace`, the extra line breaks of `str.splitlines`, and `int(...)` on a
      stripped line, which refuses decimal text longer than the interpreter's digit limit. */
  datatype Oracle = Oracle(
    space: char -> bool, lineBreak: char -> bool, toInt: string -> Option<int>, maxDigits: nat) {

    ghost predicate Valid() {
      && (forall c :: Plain(c) ==> !space(c) && !lineBreak(c))
      && lineBreak('\n') && lineBreak('\r')
      && forall n: nat :: ReadsDecimal(n)
    }

    predicate ReadsDecimal(n: nat) {
      toInt(Canonical.NatText(n)) == if |Canonical.NatText(n)| <= maxDigits then Some(n) else None
    }
  }

  /** The characters of section markers and of decimal numbers. */
  predicate Plain(c: char) { c in "#main#extra!side" || Canonical.IsDigit(c) }

  datatype Section = Main | Extra | Side

  const SECTIONS: set<Section> := {Main, Extra, Side}

  // ----- lines -----

  function BreakFrom(o: Oracle, t: string, i: nat): (j: nat)
    requires i <= |t|
    ensures i <= j <= |t|
    ensures forall k :: i <= k < j ==> !o.lineBreak(t[k])
    ensures j < |t| ==> o.lineBreak(t[j])
    decreases |t| - i
  {
    if i == |t| || o.lineBreak(t[i]) then i else BreakFrom(o, t, i + 1)
  }

  /** Where the line after the break at `j` starts. */
  function NextStart(t: string, j: nat): (next: nat)
    requires j < |t|
    ensures j < next <= |t|
  {
    if t[j] == '\r' && j + 1 < |t| && t[j + 1] == '\n' then j + 2 else j + 1
  }

  /** `t.splitlines()`: breaks are dropped, CR LF is one break, and a final break ends the last
      line without starting another. */
  function SplitLines(o: Oracle, t: string): seq<string>
    decreases |t|
  {
    if |t| == 0 then []
    else
      var j := BreakFrom(o, t, 0);
      if j == |t| then [t]
      else [t[..j]] + SplitLines(o, t[NextStart(t, j)..])
  }

  function TrimLeft(o: Oracle, t: string): string {
    if |t| > 0 && o.space(t[0]) then TrimLeft(o, t[1..]) else t
  }

  function TrimRight(o: Oracle, t: string): string {
    if |t| > 0 && o.space(t[|t| - 1]) then TrimRight(o, t[..|t| - 1]) else t
  }

  function Strip(o: Oracle, t: string): string {
    TrimRight(o, TrimLeft(o, t))
  }

  /** What a line is, before asking where it stands. */
  datatype Line = Skipped | Marker(section: Section) | UnknownMarker | Code(code: nat) | NoCode

  function Classify(o: Oracle, raw: string): Line {
    var line := Strip(o, raw);
    if line == "" || "#created by" <= line then Skipped
    else if line == "#main" then Marker(Main)
    else if line == "#extra" then Marker(Extra)
    else if line == "!side" then Marker(Side)
    else if line[0] == '#' || line[0] == '!' then UnknownMarker
    else
      var n := o.toInt(line);
      if n.None? || n.value <= 0 then NoCode else Code(n.value)
  }

  function ClassifyAll(o: Oracle, raws: seq<string>): (r: seq<Line>)
    ensures |r| == |raws| && forall i :: 0 <= i < |r| ==> r[i] == Classify(o, raws[i])
  {
    seq(|raws|, i requires 0 <= i < |raws| => Classify(o, raws[i]))
  }

  /** The lines of a text, as the parser sees them. */
  function LinesOf(o: Oracle, text: string): seq<Line> { ClassifyAll(o, SplitLines(o, text)) }

  // ----- what a sequence of lines means -----

  /** The section of the last marker among the first `n` lines. */
  function Current(lines: seq<Line>, n: nat): Option<Section>
    requires n <= |lines|
  {
    if n == 0 then None
    else if lines[n - 1].Marker? then Some(lines[n - 1].section)
    else Current(lines, n - 1)
  }

  /** The codes among the first `n` lines that stand under a marker of `s`, in order. */
  function CodesOf(lines: seq<Line>, s: Section, n: nat): seq<nat>
    requires n <= |lines|
  {
    if n == 0 then []
    else if lines[n - 1].Code? && Current(lines, n - 1) == Some(s) then CodesOf(lines, s, n - 1) + [lines[n - 1].code]
    else CodesOf(lines, s, n - 1)
  }

  datatype Error = UnknownSection | CardBeforeSection | InvalidCardCode

  /** What is wrong with line `i`, given the lines before it. */
  function LineError(lines: seq<Line>, i: nat): Option<Error>
    requires i < |lines|
  {
    match lines[i]
    case UnknownMarker => Some(UnknownSection)
    case Code(_) => if Current(lines, i).None? then Some(CardBeforeSection) else None
    case NoCode => Some(if Current(lines, i).None? then CardBeforeSection else InvalidCardCode)
    case _ => None
  }

  ghost predicate Clean(lines: seq<Line>, n: nat)
    requires n <= |lines|
  {
    forall i :: 0 <= i < n ==> LineError(lines, i).None?
  }

  datatype Deck = Deck(main: seq<nat>, extra: seq<nat>, side: seq<nat>)

  datatype Result =
    | Parsed(deck: Deck)
    | BadLine(error: Error, lineNumber: nat)
    | MissingSections(missing: set<Section>)

  function DeckOf(lines: seq<Line>, n: nat): Deck
    requires n <= |lines|
  {
    Deck(CodesOf(lines, Main, n), CodesOf(lines, Extra, n), CodesOf(lines, Side, n))
  }

  /** A deck is read exactly when no line is wrong where it stands and every section is marked;
      it then holds the codes under each marker. Otherwise the first wrong line is reported,
      and only when no line is wrong the sections without a marker. */
  ghost predicate Means(lines: seq<Line>, r: Result) {
    match r
    case Parsed(deck) =>
      Clean(lines, |lines|) && deck == DeckOf(lines, |lines|) && forall s: Section :: Marker(s) in lines
    case BadLine(error, number) =>
      1 <= number <= |lines| && Clean(lines, number - 1) && LineError(lines, number - 1) == Some(error)
    case MissingSections(missing) =>
      Clean(lines, |lines|) && missing != {} && forall s: Section :: s in missing <==> Marker(s) !in lines
  }

  lemma MeaningUnique(lines: seq<Line>, r: Result, r': Result)
    requires Means(lines, r) && Means(lines, r')
    ensures r == r'
  {
    if r.MissingSections? && r'.MissingSections? {
      assert r.missing == r'.missing;
    }
  }

  function AddCodes(deck: Deck, s: Section, codes: seq<nat>): Deck {
    match s
    case Main => deck.(main := deck.main + codes)
    case Extra => deck.(extra := deck.extra + codes)
    case Side => deck.(side := deck.side + codes)
  }

  /** The sections marked among the first `n` lines. */
  function Observed(lines: seq<Line>, n: nat): (seen: set<Section>)
    requires n <= |lines|
    ensures forall s :: s in seen <==> Marker(s) in lines[..n]
  {
    if n == 0 then {}
    else
      var before := Observed(lines, n - 1);
      assert lines[..n] == lines[..n - 1] + [lines[n - 1]];
      if lines[n - 1].Marker? then before + {lines[n - 1].section} else before
  }

  lemma DeckStep(lines: seq<Line>, i: nat)
    requires i < |lines|
    ensures DeckOf(lines, i + 1) == if lines[i].Code? && Current(lines, i).Some?
                                    then AddCodes(DeckOf(lines, i), Current(lines, i).value, [lines[i].code])
                                    else DeckOf(lines, i)
  {}

  lemma Everything()
    ensures forall s: Section :: s in SECTIONS
  {
    forall s: Section ensures s in SECTIONS { match s case Main => case Extra => case Side => }
  }

  lemma Absent(observed: set<Section>)
    requires observed != SECTIONS
    ensures SECTIONS - observed != {}
  {
    Everything();
    var s :| s in SECTIONS && s !in observed;
    assert s in SECTIONS - observed;
  }

  // ----- the same, said of the text -----

  /** Nothing, or one break; a carriage return with a line feed behind it is one break with it. */
  predicate IsBreak(o: Oracle, b: string, after: string) {
    || b == "\r\n"
    || (|b| == 1 && o.lineBreak(b[0]) && !(b[0] == '\r' && "\n" <= after))
    || (b == "" && after == "")
  }

  /** The text is these lines, none empty at its end, each with its break behind it. */
  ghost predicate IsSplit(o: Oracle, t: string, raws: seq<string>, breaks: seq<string>)
    decreases |raws|
  {
    && |raws| == |breaks|
    && if |raws| == 0 then t == ""
       else
         var line, n := raws[0] + breaks[0], |raws[0] + breaks[0]|;
         && 0 < n <= |t| && t[..n] == line && (forall c :: c in raws[0] ==> !o.lineBreak(c))
         && IsBreak(o, breaks[0], t[n..]) && IsSplit(o, t[n..], raws[1..], breaks[1..])
  }

  lemma {:induction false} SplitMeaning(o: Oracle, t: string) returns (breaks: seq<string>)
    ensures IsSplit(o, t, SplitLines(o, t), breaks)
    decreases |t|
  {
    if |t| == 0 {
      breaks := [];
    } else {
      var j := BreakFrom(o, t, 0);
      if j == |t| {
        breaks := [""];
        LastLine(o, t);
      } else {
        var next := NextStart(t, j);
        var rest := SplitMeaning(o, t[next..]);
        breaks := [t[j..next]] + rest;
        OneLine(o, t, j, next, SplitLines(o, t[next..]), rest);
      }
    }
  }

  lemma LastLine(o: Oracle, t: string)
    requires |t| > 0 && forall k :: 0 <= k < |t| ==> !o.lineBreak(t[k])
    ensures IsSplit(o, t, [t], [""])
  {
    assert t[..|t|] == t && t + "" == t;
  }

  lemma OneLine(o: Oracle, t: string, j: nat, next: nat, raws: seq<string>, breaks: seq<string>)
    requires j < |t| && o.lineBreak(t[j]) && next == NextStart(t, j) && IsSplit(o, t[next..], raws, breaks)
    requires forall k :: 0 <= k < j ==> !o.lineBreak(t[k])
    ensures IsSplit(o, t, [t[..j]] + raws, [t[j..next]] + breaks)
  {
    assert t[..j] + t[j..next] == t[..next];
    assert ([t[..j]] + raws)[1..] == raws && ([t[j..next]] + breaks)[1..] == breaks;
    assert t[j..next][0] == t[j] && (next == j + 2 ==> t[j..next][1] == t[j + 1]);
    if next < |t| { assert t[next..][0] == t[next]; }
  }

  /** What is left when the blanks at both ends are taken away. */
  ghost predicate Trimmed(o: Oracle, raw: string, line: string) {
    && (exists a, b :: 0 <= a <= b <= |raw| && line == raw[a..b]
          && (forall i :: 0 <= i < a || b <= i < |raw| ==> o.space(raw[i])))
    && (line != "" ==> !o.space(line[0]) && !o.space(line[|line| - 1]))
  }

  lemma {:induction false} TrimLeftMeaning(o: Oracle, t: string) returns (a: nat)
    ensures a <= |t| && TrimLeft(o, t) == t[a..] && (forall i :: 0 <= i < a ==> o.space(t[i]))
    ensures a < |t| ==> !o.space(t[a])
  {
    if |t| > 0 && o.space(t[0]) {
      a := TrimLeftMeaning(o, t[1..]);
      assert t[1..][a..] == t[a + 1..];
      a := a + 1;
    } else {
      a := 0;
    }
  }

  lemma {:induction false} TrimRightMeaning(o: Oracle, t: string) returns (b: nat)
    ensures b <= |t| && TrimRight(o, t) == t[..b] && (forall i :: b <= i < |t| ==> o.space(t[i]))
    ensures b > 0 ==> !o.space(t[b - 1])
  {
    if |t| > 0 && o.space(t[|t| - 1]) {
      b := TrimRightMeaning(o, t[..|t| - 1]);
      assert t[..|t| - 1][..b] == t[..b];
    } else {
      b := |t|;
    }
  }

  lemma StripMeaning(o: Oracle, raw: string)
    ensures Trimmed(o, raw, Strip(o, raw))
  {
    var a := TrimLeftMeaning(o, raw);
    var b := TrimRightMeaning(o, raw[a..]);
    assert raw[a..][..b] == raw[a..a + b];
    forall i | 0 <= i < a || a + b <= i < |raw| ensures o.space(raw[i]) {
      if i >= a { assert raw[i] == raw[a..][i - a]; }
    }
  }

  predicate Marked(line: string) { "#" <= line || "!" <= line }

  /** What the trimmed line is to the parser. */
  ghost predicate Tells(o: Oracle, line: string, l: Line) {
    var skipped, section := line == "" || "#created by" <= line, line in {"#main", "#extra", "!side"};
    && (l == Skipped <==> skipped)
    && (l == Marker(Main) <==> line == "#main") && (l == Marker(Extra) <==> line == "#extra")
    && (l == Marker(Side) <==> line == "!side")
    && (l == UnknownMarker <==> Marked(line) && !skipped && !section)
    && (l == NoCode <==> !skipped && !Marked(line) && (o.toInt(line).None? || o.toInt(line).value <= 0))
    && (l.Code? ==> o.toInt(line) == Some(l.code))
  }

  /** The lines of the text, trimmed, are these. */
  ghost predicate ReadAs(o: Oracle, text: string, lines: seq<Line>) {
    exists raws, breaks :: IsSplit(o, text, raws, breaks) && |lines| == |raws|
      && forall i :: 0 <= i < |raws| ==> ToldBy(o, raws[i], lines[i])
  }

  ghost predicate ToldBy(o: Oracle, raw: string, l: Line) {
    exists line :: Trimmed(o, raw, line) && Tells(o, line, l)
  }

  lemma ClassifyMeaning(o: Oracle, raw: string)
    ensures ToldBy(o, raw, Classify(o, raw))
  {
    StripMeaning(o, raw);
    var line := Strip(o, raw);
    assert |"#main"| == 5 && |"#extra"| == 6 && "!side"[0] == '!';
    assert Marked(line) <==> line != "" && (line[0] == '#' || line[0] == '!');
    assert Tells(o, line, Classify(o, raw));
  }

  lemma LinesMeaning(o: Oracle, text: string)
    ensures ReadAs(o, text, LinesOf(o, text))
  {
    var raws, lines := SplitLines(o, text), LinesOf(o, text);
    var breaks := SplitMeaning(o, text);
    forall i | 0 <= i < |raws| ensures ToldBy(o, raws[i], lines[i]) { ClassifyMeaning(o, raws[i]); }
  }

  /** The last marker before line `i` is that of `s`. */
  ghost predicate Under(lines: seq<Line>, i: nat, s: Section)
    requires i <= |lines|
  {
    exists j :: 0 <= j < i && lines[j] == Marker(s) && forall k :: j < k < i ==> !lines[k].Marker?
  }

  lemma {:induction false} CurrentMeaning(lines: seq<Line>, i: nat)
    requires i <= |lines|
    ensures forall s :: Under(lines, i, s) <==> Current(lines, i) == Some(s)
  {
    if i > 0 {
      CurrentMeaning(lines, i - 1);
      forall s ensures Under(lines, i, s) <==> Current(lines, i) == Some(s) { UnderStep(lines, i, s); }
    }
  }

  lemma UnderStep(lines: seq<Line>, i: nat, s: Section)
    requires 0 < i <= |lines|
    ensures Under(lines, i, s)
            <==> if lines[i - 1].Marker? then lines[i - 1] == Marker(s) else Under(lines, i - 1, s)
  {
    if Under(lines, i - 1, s) && !lines[i - 1].Marker? {
      var j :| 0 <= j < i - 1 && lines[j] == Marker(s) && forall k :: j < k < i - 1 ==> !lines[k].Marker?;
      assert forall k :: j < k < i ==> !lines[k].Marker?;
    }
  }

  ghost function CardsOf(lines: seq<Line>, s: Section, n: nat): set<nat>
    requires n <= |lines|
  {
    set i: nat | i < n && lines[i].Code? && Under(lines, i, s)
  }

  /** The codes are those of the code lines under a marker of `s`, in order. */
  ghost predicate Holds(codes: seq<nat>, lines: seq<Line>, s: Section, n: nat)
    requires n <= |lines|
  {
    exists picked :: HoldsAt(picked, codes, lines, s, n)
  }

  ghost predicate HoldsAt(picked: seq<nat>, codes: seq<nat>, lines: seq<Line>, s: Section, n: nat)
    requires n <= |lines|
  {
    && Picks(picked, CardsOf(lines, s, n)) && |codes| == |picked|
    && forall k :: 0 <= k < |picked| ==>
         picked[k] < |lines| && lines[picked[k]].Code? && codes[k] == lines[picked[k]].code
  }

  lemma {:induction false} CodesMeaning(lines: seq<Line>, s: Section, n: nat) returns (picked: seq<nat>)
    requires n <= |lines|
    ensures HoldsAt(picked, CodesOf(lines, s, n), lines, s, n)
  {
    if n == 0 {
      picked := [];
    } else {
      picked := CodesMeaning(lines, s, n - 1);
      CurrentMeaning(lines, n - 1);
      CardsMore(lines, s, n);
      if lines[n - 1].Code? && Under(lines, n - 1, s) {
        PicksOneMore(picked, CardsOf(lines, s, n - 1), n - 1);
        picked := picked + [n - 1];
      }
    }
  }

  lemma CardsMore(lines: seq<Line>, s: Section, n: nat)
    requires 0 < n <= |lines|
    ensures CardsOf(lines, s, n)
         == CardsOf(lines, s, n - 1) + if lines[n - 1].Code? && Under(lines, n - 1, s) then {n - 1} else {}
  {
  }

  /** What is wrong with line `i` where it stands. */
  ghost predicate Wrong(lines: seq<Line>, i: nat, e: Error)
    requires i < |lines|
  {
    var under := exists s :: Under(lines, i, s);
    match e
    case UnknownSection => lines[i] == UnknownMarker
    case CardBeforeSection => (lines[i].Code? || lines[i] == NoCode) && !under
    case InvalidCardCode => lines[i] == NoCode && under
  }

  /** The deck holds the codes under each marker and every section is marked; or the first wrong line is
      named with what is wrong with it; or, when no line is wrong, the sections that are not marked. */
  ghost predicate Explains(lines: seq<Line>, r: Result) {
    match r
    case Parsed(deck) =>
      && (forall i, e :: 0 <= i < |lines| ==> !Wrong(lines, i, e))
      && Holds(deck.main, lines, Main, |lines|) && Holds(deck.extra, lines, Extra, |lines|)
      && Holds(deck.side, lines, Side, |lines|)
      && forall s: Section :: Marker(s) in lines
    case BadLine(error, number) =>
      && 1 <= number <= |lines| && Wrong(lines, number - 1, error)
      && (forall i, e :: 0 <= i < number - 1 ==> !Wrong(lines, i, e))
    case MissingSections(missing) =>
      && (forall i, e :: 0 <= i < |lines| ==> !Wrong(lines, i, e))
      && missing != {} && forall s: Section :: s in missing <==> Marker(s) !in lines
  }

  ghost predicate Explained(o: Oracle, text: string, r: Result) {
    exists lines :: ReadAs(o, text, lines) && Explains(lines, r)
  }

  lemma ErrorMeaning(lines: seq<Line>, i: nat)
    requires i < |lines|
    ensures forall e :: Wrong(lines, i, e) <==> LineError(lines, i) == Some(e)
  {
    CurrentMeaning(lines, i);
    if Current(lines, i).Some? { assert Under(lines, i, Current(lines, i).value); }
  }

  lemma MeansExplains(lines: seq<Line>, r: Result)
    requires Means(lines, r)
    ensures Explains(lines, r)
  {
    forall i, e | 0 <= i < |lines| ensures Wrong(lines, i, e) <==> LineError(lines, i) == Some(e) {
      ErrorMeaning(lines, i);
    }
    if r.Parsed? {
      var main := CodesMeaning(lines, Main, |lines|);
      var extra := CodesMeaning(lines, Extra, |lines|);
      var side := CodesMeaning(lines, Side, |lines|);
    }
  }

  lemma MeaningExplains(o: Oracle, text: string)
    ensures forall r :: Means(LinesOf(o, text), r) ==> Explained(o, text, r)
  {
    LinesMeaning(o, text);
    forall r | Means(LinesOf(o, text), r) ensures Explained(o, text, r) { MeansExplains(LinesOf(o, text), r); }
  }

  /** The check after the loop, once no line was wrong. */
  function Conclude(ghost lines: seq<Line>, deck: Deck, observed: set<Section>): (r: Result)
    requires Clean(lines, |lines|) && deck == DeckOf(lines, |lines|) && observed == Observed(lines, |lines|)
    ensures Means(lines, r)
  {
    assert lines[..|lines|] == lines;
    Everything();
    if observed != SECTIONS then
      Absent(observed);
      MissingSections(SECTIONS - observed)
    else Parsed(deck)
  }

  /** The loop of `parse_ydk`, on lines already classified. */
  method ParseLines(lines: seq<Line>) returns (r: Result)
    ensures Means(lines, r)
  {
    var current: Option<Section> := None;
    var observed: set<Section> := {};
    var deck := Deck([], [], []);
    for i := 0 to |lines|
      invariant Clean(lines, i)
      invariant current == Current(lines, i)
      invariant observed == Observed(lines, i)
      invariant deck == DeckOf(lines, i)
    {
      DeckStep(lines, i);
      match lines[i] {
        case Skipped =>
        case Marker(s) =>
          current := Some(s);
          observed := observed + {s};
        case UnknownMarker =>
          return BadLine(UnknownSection, i + 1);
        case NoCode =>
          return BadLine(if current.None? then CardBeforeSection else InvalidCardCode, i + 1);
        case Code(n) =>
          if current.None? {
            return BadLine(CardBeforeSection, i + 1);
          }
          deck := AddCodes(deck, current.value, [n]);
      }
    }
    r := Conclude(lines, deck, observed);
  }

  method Parse(o: Oracle, text: string) returns (r: Result)
    ensures Means(LinesOf(o, text), r)
    ensures Explained(o, text, r)
  {
    MeaningExplains(o, text);
    r := ParseLines(LinesOf(o, text));
  }

  // ----- lines that change nothing -----

  function InsertAt(lines: seq<Line>, k: nat, line: Line): seq<Line>
    requires k <= |lines|
  {
    lines[..k] + [line] + lines[k..]
  }

  /** Where line `i` stands after the insertion at `k`. */
  function Shift(i: nat, k: nat): nat { if i < k then i else i + 1 }

  /** `more` is `lines` with one skipped line at `k`. */
  ghost predicate Inserted(more: seq<Line>, lines: seq<Line>, k: nat)
    requires k <= |lines|
  {
    && |more| == |lines| + 1 && more[k] == Skipped
    && forall i :: 0 <= i < |lines| ==> more[Shift(i, k)] == lines[i]
  }

  lemma InsertPlaces(lines: seq<Line>, k: nat)
    requires k <= |lines|
    ensures Inserted(InsertAt(lines, k, Skipped), lines, k)
  {
  }

  lemma InsertMembers(lines: seq<Line>, k: nat, line: Line)
    requires k <= |lines|
    ensures forall x :: x in InsertAt(lines, k, line) <==> x in lines || x == line
  {
    assert lines == lines[..k] + lines[k..];
  }

  /** The same line after the same section and deck gives the same section and deck. */
  lemma SameStep(more: seq<Line>, m: nat, lines: seq<Line>, n: nat)
    requires m < |more| && n < |lines| && more[m] == lines[n]
    requires Current(more, m) == Current(lines, n) && DeckOf(more, m) == DeckOf(lines, n)
    ensures Current(more, m + 1) == Current(lines, n + 1) && DeckOf(more, m + 1) == DeckOf(lines, n + 1)
  {
  }

  lemma SkippedStep(lines: seq<Line>, n: nat)
    requires n < |lines| && lines[n] == Skipped
    ensures Current(lines, n + 1) == Current(lines, n) && DeckOf(lines, n + 1) == DeckOf(lines, n)
  {
  }

  lemma {:induction false} SkippedBefore(more: seq<Line>, lines: seq<Line>, k: nat, n: nat)
    requires n <= k <= |lines| && Inserted(more, lines, k)
    ensures Current(more, n) == Current(lines, n) && DeckOf(more, n) == DeckOf(lines, n)
  {
    if n > 0 {
      SkippedBefore(more, lines, k, n - 1);
      assert more[Shift(n - 1, k)] == lines[n - 1];
      SameStep(more, n - 1, lines, n - 1);
    }
  }

  lemma {:induction false} SkippedAfter(more: seq<Line>, lines: seq<Line>, k: nat, n: nat)
    requires k <= n <= |lines| && Inserted(more, lines, k)
    ensures Current(more, n + 1) == Current(lines, n) && DeckOf(more, n + 1) == DeckOf(lines, n)
  {
    if n == k {
      SkippedBefore(more, lines, k, n);
      SkippedStep(more, n);
    } else {
      SkippedAfter(more, lines, k, n - 1);
      assert more[Shift(n - 1, k)] == lines[n - 1];
      SameStep(more, n, lines, n - 1);
    }
  }

  lemma SkippedErrors(more: seq<Line>, lines: seq<Line>, k: nat, i: nat)
    requires k <= |lines| && i < |lines| && Inserted(more, lines, k)
    ensures LineError(more, Shift(i, k)) == LineError(lines, i) && LineError(more, k) == None
  {
    assert more[Shift(i, k)] == lines[i];
    if i < k { SkippedBefore(more, lines, k, i); } else { SkippedAfter(more, lines, k, i); }
  }

  lemma SkippedClean(more: seq<Line>, lines: seq<Line>, k: nat, n: nat)
    requires k <= |lines| && n <= |lines| && Inserted(more, lines, k) && Clean(lines, n)
    ensures Clean(more, Shift(n, k))
  {
    forall j | 0 <= j < Shift(n, k) ensures LineError(more, j).None? {
      if j != k {
        var i := if j < k then j else j - 1;
        assert LineError(lines, i).None?;
        SkippedErrors(more, lines, k, i);
      }
    }
  }

  /** Only the line number of an error moves. */
  function Renumber(r: Result, k: nat): Result {
    if r.BadLine? && r.lineNumber > k then r.(lineNumber := r.lineNumber + 1) else r
  }

  /** A blank or `#created by` line put anywhere leaves the deck, or the error, as it was. */
  lemma SkippedLineChangesNothing(lines: seq<Line>, k: nat, r: Result)
    requires k <= |lines| && Means(lines, r)
    ensures Means(InsertAt(lines, k, Skipped), Renumber(r, k))
  {
    var more := InsertAt(lines, k, Skipped);
    InsertPlaces(lines, k);
    InsertMembers(lines, k, Skipped);
    if r.BadLine? {
      SkippedClean(more, lines, k, r.lineNumber - 1);
      SkippedErrors(more, lines, k, r.lineNumber - 1);
    } else {
      SkippedClean(more, lines, k, |lines|);
      SkippedAfter(more, lines, k, |lines|);
    }
  }

  // ----- text split at a line boundary -----

  lemma {:induction false} BreakFromPrefix(o: Oracle, p: string, q: string, i: nat)
    requires i <= |p| && BreakFrom(o, p, i) < |p|
    ensures BreakFrom(o, p + q, i) == BreakFrom(o, p, i)
    decreases |p| - i
  {
    if !o.lineBreak(p[i]) { BreakFromPrefix(o, p, q, i + 1); }
  }

  ghost predicate EndsLine(p: string) { p == "" || p[|p| - 1] == '\n' }

  lemma FirstBreak(o: Oracle, p: string, q: string) returns (j: nat, next: nat)
    requires o.lineBreak('\n') && p != "" && EndsLine(p)
    ensures j < next <= |p| && EndsLine(p[next..])
    ensures j == BreakFrom(o, p, 0) == BreakFrom(o, p + q, 0)
    ensures next == NextStart(p, j) == NextStart(p + q, j)
    ensures (p + q)[..j] == p[..j] && (p + q)[next..] == p[next..] + q
  {
    j := BreakFrom(o, p, 0);
    assert o.lineBreak(p[|p| - 1]);
    BreakFromPrefix(o, p, q, 0);
    next := NextStart(p, j);
  }

  lemma {:induction false} SplitAtBoundary(o: Oracle, p: string, q: string)
    requires o.lineBreak('\n') && EndsLine(p)
    ensures SplitLines(o, p + q) == SplitLines(o, p) + SplitLines(o, q)
    decreases |p|
  {
    if p == "" {
      assert p + q == q;
    } else {
      var j, next := FirstBreak(o, p, q);
      SplitAtBoundary(o, p[next..], q);
      Reassociate([p[..j]], SplitLines(o, p[next..]), SplitLines(o, q));
    }
  }

  /** A printed line. */
  function LineText(body: string): string { body + "\n" }

  lemma {:induction false} NoBreakFrom(o: Oracle, body: string, i: nat)
    requires o.lineBreak('\n') && i <= |body| && forall k :: 0 <= k < |body| ==> !o.lineBreak(body[k])
    ensures BreakFrom(o, LineText(body), i) == |body|
    decreases |body| - i
  {
    if i < |body| { NoBreakFrom(o, body, i + 1); }
  }

  lemma SplitOneLine(o: Oracle, body: string)
    requires o.lineBreak('\n') && forall k :: 0 <= k < |body| ==> !o.lineBreak(body[k])
    ensures SplitLines(o, LineText(body)) == [body] && EndsLine(LineText(body))
  {
    NoBreakFrom(o, body, 0);
    assert LineText(body)[..|body|] == body && LineText(body)[|body| + 1..] == "";
  }

  lemma SplitThree(o: Oracle, p: string, line: string, q: string)
    requires o.lineBreak('\n') && EndsLine(p) && EndsLine(line)
    ensures SplitLines(o, p + line + q) == SplitLines(o, p) + (SplitLines(o, line) + SplitLines(o, q))
  {
    Reassociate(p, line, q);
    SplitAtBoundary(o, p, line + q);
    SplitAtBoundary(o, line, q);
  }

  lemma SplitInserted(o: Oracle, p: string, body: string, q: string)
    requires o.lineBreak('\n') && EndsLine(p) && forall k :: 0 <= k < |body| ==> !o.lineBreak(body[k])
    ensures SplitLines(o, p + LineText(body) + q) == SplitLines(o, p) + ([body] + SplitLines(o, q))
  {
    SplitOneLine(o, body);
    SplitThree(o, p, LineText(body), q);
  }

  lemma ClassifyInserted(o: Oracle, before: seq<string>, body: string, after: seq<string>)
    requires Classify(o, body).Skipped?
    ensures |ClassifyAll(o, before + after)| >= |before|
    ensures ClassifyAll(o, before + ([body] + after)) == InsertAt(ClassifyAll(o, before + after), |before|, Skipped)
  {}

  /** In text: a line of blanks or a `#created by` line between two lines of a deck file changes
      nothing but the numbers of the lines after it. */
  lemma BlankLineChangesNothing(o: Oracle, p: string, body: string, q: string, r: Result)
    requires o.lineBreak('\n') && EndsLine(p) && forall k :: 0 <= k < |body| ==> !o.lineBreak(body[k])
    requires Classify(o, body).Skipped?
    requires Means(LinesOf(o, p + q), r)
    ensures Means(LinesOf(o, p + LineText(body) + q), Renumber(r, |SplitLines(o, p)|))
  {
    var before, after := SplitLines(o, p), SplitLines(o, q);
    SplitAtBoundary(o, p, q);
    SplitInserted(o, p, body, q);
    ClassifyInserted(o, before, body, after);
    SkippedLineChangesNothing(ClassifyAll(o, before + after), |before|, r);
  }

  // ----- a printed deck -----

  function PrintCodes(codes: seq<nat>): string {
    if codes == [] then "" else LineText(Canonical.NatText(codes[0])) + PrintCodes(codes[1..])
  }

  function PrintDeck(d: Deck): string {
    LineText("#main") + PrintCodes(d.main) + (LineText("#extra") + PrintCodes(d.extra)
      + (LineText("!side") + PrintCodes(d.side)))
  }

  /** What a printed code reads back as: positive and short enough, or no code at all. */
  predicate Readable(o: Oracle, code: nat) {
    code > 0 && |Canonical.NatText(code)| <= o.maxDigits
  }

  function CodeLine(o: Oracle, code: nat): Line {
    if Readable(o, code) then Code(code) else NoCode
  }

  function CodeLines(o: Oracle, codes: seq<nat>): seq<Line> {
    if codes == [] then [] else [CodeLine(o, codes[0])] + CodeLines(o, codes[1..])
  }

  function DeckLines(o: Oracle, d: Deck): seq<Line> {
    [Marker(Main)] + CodeLines(o, d.main) + ([Marker(Extra)] + CodeLines(o, d.extra)
      + ([Marker(Side)] + CodeLines(o, d.side)))
  }

  lemma StripPlain(o: Oracle, t: string)
    requires o.Valid() && |t| > 0 && Plain(t[0]) && Plain(t[|t| - 1])
    ensures Strip(o, t) == t
  {}

  lemma ClassifyMarkers(o: Oracle)
    requires o.Valid()
    ensures Classify(o, "#main") == Marker(Main)
    ensures Classify(o, "#extra") == Marker(Extra)
    ensures Classify(o, "!side") == Marker(Side)
  {
    StripPlain(o, "#main");
    StripPlain(o, "#extra");
    StripPlain(o, "!side");
    assert "#created by"[1] == 'c';
  }

  lemma ClassifyCode(o: Oracle, code: nat)
    requires o.Valid()
    ensures Classify(o, Canonical.NatText(code)) == CodeLine(o, code)
  {
    var t := Canonical.NatText(code);
    StripPlain(o, t);
    assert o.ReadsDecimal(code);
    assert "#created by"[0] == '#' && "#main"[0] == '#' && "#extra"[0] == '#' && "!side"[0] == '!';
  }

  /** `text` is whole lines that read as `lines`. */
  ghost predicate Reads(o: Oracle, text: string, lines: seq<Line>) {
    EndsLine(text) && LinesOf(o, text) == lines
  }

  lemma ClassifyTogether(o: Oracle, xs: seq<string>, ys: seq<string>)
    ensures ClassifyAll(o, xs + ys) == ClassifyAll(o, xs) + ClassifyAll(o, ys)
  {}

  lemma EndsTogether(p: string, q: string)
    requires EndsLine(p) && EndsLine(q)
    ensures EndsLine(p + q)
  {
    if q == "" { assert p + q == p; }
  }

  lemma ReadsTogether(o: Oracle, p: string, xs: seq<Line>, q: string, ys: seq<Line>)
    requires o.Valid() && Reads(o, p, xs) && Reads(o, q, ys)
    ensures Reads(o, p + q, xs + ys)
  {
    SplitAtBoundary(o, p, q);
    ClassifyTogether(o, SplitLines(o, p), SplitLines(o, q));
    EndsTogether(p, q);
  }

  lemma ReadsOne(o: Oracle, body: string)
    requires o.Valid() && forall k :: 0 <= k < |body| ==> Plain(body[k])
    ensures Reads(o, LineText(body), [Classify(o, body)])
  {
    SplitOneLine(o, body);
  }

  lemma {:induction false} ReadsCodes(o: Oracle, codes: seq<nat>)
    requires o.Valid()
    ensures Reads(o, PrintCodes(codes), CodeLines(o, codes))
  {
    if codes != [] {
      ReadsOne(o, Canonical.NatText(codes[0]));
      ClassifyCode(o, codes[0]);
      ReadsCodes(o, codes[1..]);
      ReadsTogether(o, LineText(Canonical.NatText(codes[0])), [CodeLine(o, codes[0])],
        PrintCodes(codes[1..]), CodeLines(o, codes[1..]));
    }
  }

  lemma ReadsSection(o: Oracle, marker: string, s: Section, codes: seq<nat>)
    requires o.Valid() && (forall k :: 0 <= k < |marker| ==> Plain(marker[k])) && Classify(o, marker) == Marker(s)
    ensures Reads(o, LineText(marker) + PrintCodes(codes), [Marker(s)] + CodeLines(o, codes))
  {
    ReadsOne(o, marker);
    ReadsCodes(o, codes);
    ReadsTogether(o, LineText(marker), [Marker(s)], PrintCodes(codes), CodeLines(o, codes));
  }

  lemma ReadsDeck(o: Oracle, d: Deck)
    requires o.Valid()
    ensures Reads(o, PrintDeck(d), DeckLines(o, d))
  {
    ClassifyMarkers(o);
    ReadsSection(o, "#main", Main, d.main);
    ReadsSection(o, "#extra", Extra, d.extra);
    ReadsSection(o, "!side", Side, d.side);
    ReadsTogether(o, LineText("#extra") + PrintCodes(d.extra), [Marker(Extra)] + CodeLines(o, d.extra),
      LineText("!side") + PrintCodes(d.side), [Marker(Side)] + CodeLines(o, d.side));
    ReadsTogether(o, LineText("#main") + PrintCodes(d.main), [Marker(Main)] + CodeLines(o, d.main),
      LineText("#extra") + PrintCodes(d.extra) + (LineText("!side") + PrintCodes(d.side)),
      [Marker(Extra)] + CodeLines(o, d.extra) + ([Marker(Side)] + CodeLines(o, d.side)));
  }

  ghost predicate AllReadable(o: Oracle, codes: seq<nat>) {
    forall i :: 0 <= i < |codes| ==> Readable(o, codes[i])
  }

  lemma {:induction false} CodeLinesAt(o: Oracle, codes: seq<nat>)
    ensures |CodeLines(o, codes)| == |codes|
    ensures forall i :: 0 <= i < |codes| ==> CodeLines(o, codes)[i] == CodeLine(o, codes[i])
  {
    if codes != [] { CodeLinesAt(o, codes[1..]); }
  }

  /** The lines from `a` on are those of `codes`. */
  ghost predicate HoldsCodes(o: Oracle, lines: seq<Line>, a: nat, codes: seq<nat>) {
    a + |codes| <= |lines| && forall k :: 0 <= k < |codes| ==> lines[a + k] == CodeLine(o, codes[k])
  }

  lemma {:induction false} ReadRun(o: Oracle, lines: seq<Line>, a: nat, codes: seq<nat>, s: Section, n: nat)
    requires HoldsCodes(o, lines, a, codes) && AllReadable(o, codes) && n <= |codes|
    requires Current(lines, a) == Some(s)
    ensures Current(lines, a + n) == Some(s)
    ensures DeckOf(lines, a + n) == AddCodes(DeckOf(lines, a), s, codes[..n])
  {
    if n > 0 {
      ReadRun(o, lines, a, codes, s, n - 1);
      assert lines[a + (n - 1)] == CodeLine(o, codes[n - 1]);
      assert codes[..n] == codes[..n - 1] + [codes[n - 1]];
    }
  }

  lemma RunClean(o: Oracle, lines: seq<Line>, a: nat, codes: seq<nat>, s: Section)
    requires HoldsCodes(o, lines, a, codes) && AllReadable(o, codes)
    requires Current(lines, a) == Some(s) && Clean(lines, a)
    ensures Clean(lines, a + |codes|)
  {
    forall i | a <= i < a + |codes| ensures LineError(lines, i).None? {
      ReadRun(o, lines, a, codes, s, i - a);
      assert lines[a + (i - a)] == CodeLine(o, codes[i - a]);
    }
  }

  /** A marker and the codes after it. */
  lemma ReadSection(o: Oracle, lines: seq<Line>, a: nat, codes: seq<nat>, s: Section)
    requires a < |lines| && lines[a] == Marker(s) && Clean(lines, a)
    requires HoldsCodes(o, lines, a + 1, codes) && AllReadable(o, codes)
    ensures Clean(lines, a + 1 + |codes|)
    ensures DeckOf(lines, a + 1 + |codes|) == AddCodes(DeckOf(lines, a), s, codes)
  {
    assert DeckOf(lines, a + 1) == DeckOf(lines, a);
    RunClean(o, lines, a + 1, codes, s);
    ReadRun(o, lines, a + 1, codes, s, |codes|);
    assert codes[..|codes|] == codes;
  }

  ghost predicate ReadableDeck(o: Oracle, d: Deck) {
    AllReadable(o, d.main) && AllReadable(o, d.extra) && AllReadable(o, d.side)
  }

  /** Where the three sections of a printed deck stand. */
  ghost predicate LaidOut(o: Oracle, lines: seq<Line>, d: Deck, e: nat, f: nat) {
    && e == 1 + |d.main| && f == e + 1 + |d.extra| && |lines| == f + 1 + |d.side|
    && lines[0] == Marker(Main) && lines[e] == Marker(Extra) && lines[f] == Marker(Side)
    && HoldsCodes(o, lines, 1, d.main) && HoldsCodes(o, lines, e + 1, d.extra) && HoldsCodes(o, lines, f + 1, d.side)
  }

  lemma Layout(o: Oracle, d: Deck, lines: seq<Line>) returns (e: nat, f: nat)
    requires lines == DeckLines(o, d)
    ensures LaidOut(o, lines, d, e, f)
  {
    CodeLinesAt(o, d.main);
    CodeLinesAt(o, d.extra);
    CodeLinesAt(o, d.side);
    e := 1 + |d.main|;
    f := e + 1 + |d.extra|;
  }

  lemma ReadsBack(o: Oracle, lines: seq<Line>, d: Deck, e: nat, f: nat)
    requires LaidOut(o, lines, d, e, f) && ReadableDeck(o, d)
    ensures Means(lines, Parsed(d))
  {
    ReadSection(o, lines, 0, d.main, Main);
    ReadSection(o, lines, e, d.extra, Extra);
    ReadSection(o, lines, f, d.side, Side);
    assert DeckOf(lines, 0) == Deck([], [], []);
    assert DeckOf(lines, |lines|) == Deck([] + d.main, [] + d.extra, [] + d.side) == d;
    AllMarked(lines, 0, e, f);
  }

  lemma AllMarked(lines: seq<Line>, i: nat, j: nat, k: nat)
    requires i < |lines| && j < |lines| && k < |lines|
    requires lines[i] == Marker(Main) && lines[j] == Marker(Extra) && lines[k] == Marker(Side)
    ensures forall s: Section :: Marker(s) in lines
  {
    forall s: Section ensures Marker(s) in lines {
      match s case Main => case Extra => case Side =>
    }
  }

  lemma UnreadableRefused(o: Oracle, lines: seq<Line>, a: nat, codes: seq<nat>, d: Deck)
    requires HoldsCodes(o, lines, a, codes) && !AllReadable(o, codes)
    ensures !Means(lines, Parsed(d))
  {
    var k :| 0 <= k < |codes| && !Readable(o, codes[k]);
    assert lines[a + k] == NoCode;
    assert LineError(lines, a + k).Some?;
  }

  lemma DeckUnreadable(o: Oracle, lines: seq<Line>, d: Deck, e: nat, f: nat, d': Deck)
    requires LaidOut(o, lines, d, e, f) && !ReadableDeck(o, d)
    ensures !Means(lines, Parsed(d'))
  {
    if !AllReadable(o, d.main) {
      UnreadableRefused(o, lines, 1, d.main, d');
    } else if !AllReadable(o, d.extra) {
      UnreadableRefused(o, lines, e + 1, d.extra, d');
    } else {
      UnreadableRefused(o, lines, f + 1, d.side, d');
    }
  }

  lemma LaidOutReads(o: Oracle, lines: seq<Line>, d: Deck, e: nat, f: nat, r: Result)
    requires LaidOut(o, lines, d, e, f) && Means(lines, r)
    ensures r.Parsed? <==> ReadableDeck(o, d)
    ensures r.Parsed? ==> r.deck == d
  {
    if ReadableDeck(o, d) {
      ReadsBack(o, lines, d, e, f);
      MeaningUnique(lines, Parsed(d), r);
    } else if r.Parsed? {
      DeckUnreadable(o, lines, d, e, f, r.deck);
    }
  }

  /** `lines` are those of the printed deck. */
  ghost predicate PrintedAs(o: Oracle, d: Deck, lines: seq<Line>) {
    o.Valid() && lines == LinesOf(o, PrintDeck(d))
  }

  lemma PrintedLayout(o: Oracle, d: Deck, lines: seq<Line>) returns (e: nat, f: nat)
    requires PrintedAs(o, d, lines)
    ensures LaidOut(o, lines, d, e, f)
  {
    ReadsDeck(o, d);
    e, f := Layout(o, d, lines);
  }

  /** The round trip: a printed deck is accepted exactly when every code is positive and within
      the interpreter's digit limit, and then it reads back as itself. */
  lemma RoundTrip(o: Oracle, d: Deck, lines: seq<Line>, r: Result)
    requires PrintedAs(o, d, lines) && Means(lines, r)
    ensures r.Parsed? <==> ReadableDeck(o, d)
    ensures r.Parsed? ==> r.deck == d
  {
    var e, f := PrintedLayout(o, d, lines);
    LaidOutReads(o, lines, d, e, f, r);
  }
}
