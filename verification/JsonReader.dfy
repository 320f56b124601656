/** A reader of JSON text, written from the grammar of RFC 8259 and without regard to how
    `engine/canonical.py` prints, and what the printed text denotes under it. */
module JsonReader {
  import opened Canonical
  import opened Numerals
  import opened Order
  import opened Wrappers

  // ----- white space, section 2 -----

  predicate Blank(c: char) { c == ' ' || c == '\t' || c == '\n' || c == '\r' }

  function Skip(t: string): (r: string)
    ensures |r| <= |t|
  {
    if |t| > 0 && Blank(t[0]) then Skip(t[1..]) else t
  }

  // ----- numbers, section 6, of which only the integers are data here -----

  function DigitCount(t: string): (n: nat)
    ensures n <= |t|
  {
    if |t| == 0 || !('0' <= t[0] <= '9') then 0 else 1 + DigitCount(t[1..])
  }

  function DecimalValue(t: string): int {
    if |t| == 0 then 0 else 10 * DecimalValue(t[..|t| - 1]) + (t[|t| - 1] as int - '0' as int)
  }

  /** A fraction or an exponent would make the number no integer. */
  predicate GoesOn(t: string) { |t| > 0 && (t[0] == '.' || t[0] == 'e' || t[0] == 'E') }

  function ReadNat(t: string): (r: Option<(int, string)>)
    ensures r.Some? ==> |r.value.1| < |t|
  {
    var n := DigitCount(t);
    if n == 0 || (n > 1 && t[0] == '0') || GoesOn(t[n..]) then None else Some((DecimalValue(t[..n]), t[n..]))
  }

  function ReadInt(t: string): (r: Option<(int, string)>)
    ensures r.Some? ==> |r.value.1| < |t|
  {
    if |t| > 0 && t[0] == '-' then
      var r := ReadNat(t[1..]);
      if r.None? then None else Some((-r.value.0, r.value.1))
    else ReadNat(t)
  }

  // ----- strings, section 7 -----

  function HexValue(c: char): Option<nat> {
    if '0' <= c <= '9' then Some(c as nat - '0' as nat)
    else if 'a' <= c <= 'f' then Some(c as nat - 'a' as nat + 10)
    else if 'A' <= c <= 'F' then Some(c as nat - 'A' as nat + 10)
    else None
  }

  /** The character of `\uXXXX`; a surrogate stands for no character by itself. */
  function ReadHex(t: string): Option<char>
    requires |t| >= 4
  {
    var a, b, c, d := HexValue(t[0]), HexValue(t[1]), HexValue(t[2]), HexValue(t[3]);
    if a.None? || b.None? || c.None? || d.None? then None
    else
      var code := 0x1000 * a.value + 0x100 * b.value + 0x10 * c.value + d.value;
      if code < 0xD800 || 0xE000 <= code < 0x10000 then Some(code as char) else None
  }

  /** One character of a string, plain or escaped, and how many characters of the text it takes. */
  function ReadChar(t: string): (r: Option<(char, nat)>)
    requires |t| > 0
    ensures r.Some? ==> 0 < r.value.1 <= |t|
  {
    if t[0] != '\\' then
      if t[0] < ' ' || t[0] == '\"' then None else Some((t[0], 1))
    else if |t| < 2 then None
    else
      match t[1]
      case '\"' => Some(('\"', 2))
      case '\\' => Some(('\\', 2))
      case '/' => Some(('/', 2))
      case 'b' => Some(('\U{08}', 2))
      case 'f' => Some(('\U{0C}', 2))
      case 'n' => Some(('\n', 2))
      case 'r' => Some(('\r', 2))
      case 't' => Some(('\t', 2))
      case 'u' =>
        if |t| < 6 then None
        else
          var c := ReadHex(t[2..6]);
          if c.None? then None else Some((c.value, 6))
      case _ => None
  }

  /** The rest of a string after its opening quote. */
  function ReadChars(t: string): (r: Option<(string, string)>)
    ensures r.Some? ==> |r.value.1| < |t|
    decreases |t|
  {
    if |t| == 0 then None
    else if t[0] == '\"' then Some(("", t[1..]))
    else
      var c := ReadChar(t);
      if c.None? then None
      else
        var rest := ReadChars(t[c.value.1..]);
        if rest.None? then None else Some(([c.value.0] + rest.value.0, rest.value.1))
  }

  // ----- values, arrays and objects, sections 3 to 5 -----

  function ReadWord(t: string, word: string, x: Scalar): (r: Option<(Json, string)>)
    requires |word| > 0
    ensures r.Some? ==> |r.value.1| < |t|
  {
    if word <= t then Some((Atom(x), t[|word|..])) else None
  }

  function ReadValue(t: string): (r: Option<(Json, string)>)
    ensures r.Some? ==> |r.value.1| < |t|
    decreases |t|, 0
  {
    var s := Skip(t);
    if |s| == 0 then None
    else if s[0] == '\"' then
      var r := ReadChars(s[1..]);
      if r.None? then None else Some((Atom(Str(r.value.0)), r.value.1))
    else if s[0] == '[' then
      var u := Skip(s[1..]);
      if |u| > 0 && u[0] == ']' then Some((Arr([]), u[1..]))
      else
        var r := ReadItems(s[1..]);
        if r.None? then None else Some((Arr(r.value.0), r.value.1))
    else if s[0] == '{' then
      var u := Skip(s[1..]);
      if |u| > 0 && u[0] == '}' then Some((Obj([]), u[1..]))
      else
        var r := ReadMembers(s[1..]);
        if r.None? then None else Some((Obj(r.value.0), r.value.1))
    else if s[0] == 'n' then ReadWord(s, "null", Null)
    else if s[0] == 't' then ReadWord(s, "true", Bool(true))
    else if s[0] == 'f' then ReadWord(s, "false", Bool(false))
    else
      var r := ReadInt(s);
      if r.None? then None else Some((Atom(Int(r.value.0)), r.value.1))
  }

  /** Values separated by commas up to the closing bracket. */
  function ReadItems(t: string): (r: Option<(seq<Json>, string)>)
    ensures r.Some? ==> |r.value.1| < |t|
    decreases |t|, 1
  {
    var first := ReadValue(t);
    if first.None? then None
    else
      var s := Skip(first.value.1);
      if |s| == 0 then None
      else if s[0] == ']' then Some(([first.value.0], s[1..]))
      else if s[0] == ',' then
        var more := ReadItems(s[1..]);
        if more.None? then None else Some(([first.value.0] + more.value.0, more.value.1))
      else None
  }

  function ReadMember(t: string): (r: Option<((string, Json), string)>)
    ensures r.Some? ==> |r.value.1| < |t|
    decreases |t|, 1
  {
    var s := Skip(t);
    if |s| == 0 || s[0] != '\"' then None
    else
      var key := ReadChars(s[1..]);
      if key.None? then None
      else
        var u := Skip(key.value.1);
        if |u| == 0 || u[0] != ':' then None
        else
          var x := ReadValue(u[1..]);
          if x.None? then None else Some(((key.value.0, x.value.0), x.value.1))
  }

  function ReadMembers(t: string): (r: Option<(seq<(string, Json)>, string)>)
    ensures r.Some? ==> |r.value.1| < |t|
    decreases |t|, 2
  {
    var first := ReadMember(t);
    if first.None? then None
    else
      var s := Skip(first.value.1);
      if |s| == 0 then None
      else if s[0] == '}' then Some(([first.value.0], s[1..]))
      else if s[0] == ',' then
        var more := ReadMembers(s[1..]);
        if more.None? then None else Some(([first.value.0] + more.value.0, more.value.1))
      else None
  }

  /** The value a whole text denotes. */
  function Read(t: string): Option<Json> {
    var r := ReadValue(t);
    if r.None? || Skip(r.value.1) != "" then None else Some(r.value.0)
  }

  // ----- a printed number -----

  lemma DigitIs(d: nat)
    requires d < 10
    ensures Digit(d) as int == '0' as int + d
  {
    assert DIGITS == ['0', '1', '2', '3', '4', '5', '6', '7', '8', '9'];
  }

  lemma {:induction false} NatTextReads(n: nat)
    ensures DecimalValue(NatText(n)) == n
    ensures NatText(n)[0] == '0' ==> n == 0
  {
    DigitIs(n % 10);
    if n >= 10 {
      NatTextReads(n / 10);
      assert NatText(n)[..|NatText(n)| - 1] == NatText(n / 10);
      assert NatText(n)[0] == NatText(n / 10)[0];
    } else {
      assert NatText(n) == [Digit(n)] && [Digit(n)][..0] == "";
    }
  }

  /** What may follow a value: nothing, a comma or a closing bracket. */
  predicate Ends(t: string) {
    |t| > 0 ==> t[0] == ',' || t[0] == ']' || t[0] == '}'
  }

  lemma {:induction false} DigitsCounted(a: string, rest: string)
    requires (forall i :: 0 <= i < |a| ==> IsDigit(a[i])) && Ends(rest)
    ensures DigitCount(a + rest) == |a|
  {
    if |a| > 0 {
      assert (a + rest)[1..] == a[1..] + rest;
      DigitsCounted(a[1..], rest);
    } else {
      assert a + rest == rest;
    }
  }

  lemma NatReads(n: nat, rest: string)
    requires Ends(rest)
    ensures ReadNat(NatText(n) + rest) == Some((n, rest))
  {
    var a := NatText(n);
    DigitsCounted(a, rest);
    NatTextReads(n);
    assert (a + rest)[..|a|] == a && (a + rest)[|a|..] == rest && (a + rest)[0] == a[0];
  }

  lemma {:induction false} IntReads(n: int, rest: string)
    requires Ends(rest)
    ensures ReadInt(IntText(n) + rest) == Some((n, rest))
  {
    if n < 0 { NegativeReads(-n, rest); } else { NonNegativeReads(n, rest); }
  }

  lemma {:induction false} NegativeReads(n: int, rest: string)
    requires Ends(rest) && n > 0
    ensures ReadInt(IntText(-n) + rest) == Some((-n, rest))
  {
    NatReads(n, rest);
    Signed(NatText(n), rest);
  }

  lemma {:induction false} NonNegativeReads(n: nat, rest: string)
    requires Ends(rest)
    ensures ReadInt(IntText(n) + rest) == Some((n, rest))
  {
    NatReads(n, rest);
    Unsigned(NatText(n), rest);
  }

  lemma Unsigned(a: string, rest: string)
    requires |a| > 0 && IsDigit(a[0])
    ensures ReadInt(a + rest) == ReadNat(a + rest)
  {
    assert (a + rest)[0] == a[0];
  }

  lemma Signed(a: string, rest: string)
    ensures ReadNat(a + rest).Some? ==>
      ReadInt("-" + a + rest) == Some((-ReadNat(a + rest).value.0, ReadNat(a + rest).value.1))
  {
    assert ("-" + a + rest)[0] == '-' && ("-" + a + rest)[1..] == a + rest;
  }

  // ----- a printed string -----

  lemma HexReads(d: nat)
    requires d < 16
    ensures HexValue(HEX[d]) == Some(d)
  {
    assert HEX == ['0', '1', '2', '3', '4', '5', '6', '7', '8', '9', 'a', 'b', 'c', 'd', 'e', 'f'];
  }

  lemma EscapeReads(c: char, s: string)
    ensures ReadChar(EscapeChar(c) + s) == Some((c, |EscapeChar(c)|))
    ensures (EscapeChar(c) + s)[|EscapeChar(c)|..] == s && (EscapeChar(c) + s)[0] != '\"'
  {
    var e := EscapeChar(c);
    var t := e + s;
    assert t[..|e|] == e && t[0] == e[0];
    if e[0] == '\\' {
      assert t[1] == e[1];
      if e[1] == 'u' {
        var code := c as nat;
        HexReads(code / 16);
        HexReads(code % 16);
        HexReads(0);
        assert t[2..6] == e[2..6];
        assert e[2] == '0' && e[3] == '0' && e[4] == HEX[code / 16] && e[5] == HEX[code % 16];
      }
    }
  }

  lemma {:induction false} CharsRead(s: string, rest: string)
    ensures ReadChars(EmitEscaped(s, "\"" + rest)) == Some((s, rest))
  {
    if |s| > 0 {
      EscapeReads(s[0], EmitEscaped(s[1..], "\"" + rest));
      CharsRead(s[1..], rest);
      assert s == [s[0]] + s[1..];
    } else {
      assert ("\"" + rest)[1..] == rest;
    }
  }

  // ----- a printed value -----

  lemma WordReads(word: string, rest: string)
    ensures word <= word + rest && (word + rest)[|word|..] == rest
    ensures |word| > 0 ==> (word + rest)[0] == word[0]
  {
  }

  lemma LiteralReads(x: Scalar, rest: string)
    requires x.Null? || x.Bool?
    ensures ReadValue(EmitScalar(x, rest)) == Some((Atom(x), rest))
  {
    if x.Null? {
      WordReads("null", rest);
    } else if x.b {
      WordReads("true", rest);
    } else {
      WordReads("false", rest);
    }
  }

  lemma {:induction false} NumberReads(n: int, rest: string)
    requires Ends(rest)
    ensures ReadValue(IntText(n) + rest) == Some((Atom(Int(n)), rest))
  {
    IntReads(n, rest);
    assert (IntText(n) + rest)[0] == IntText(n)[0];
  }

  lemma StringReads(s: string, rest: string)
    ensures ReadValue(EmitString(s, rest)) == Some((Atom(Str(s)), rest))
  {
    CharsRead(s, rest);
    assert EmitString(s, rest)[0] == '\"' && EmitString(s, rest)[1..] == EmitEscaped(s, "\"" + rest);
  }

  lemma ScalarReads(x: Scalar, rest: string)
    requires Ends(rest)
    ensures ReadValue(EmitScalar(x, rest)) == Some((Atom(x), rest))
  {
    match x
    case Int(n) => NumberReads(n, rest);
    case Str(s) => StringReads(s, rest);
    case _ => LiteralReads(x, rest);
  }

  /** A printed value begins with no blank and no closing bracket. */
  lemma EmitStarts(j: Json, rest: string)
    ensures |Emit(j, rest)| > 0 && Skip(Emit(j, rest)) == Emit(j, rest)
    ensures Emit(j, rest)[0] != ']' && Emit(j, rest)[0] != '}'
  {
    EmitLead(j, rest);
  }

  lemma {:induction false} ReadsBack(j: Json, rest: string)
    requires Ends(rest)
    ensures ReadValue(Emit(j, rest)) == Some((j, rest))
    decreases j, 0
  {
    var t := Emit(j, rest);
    EmitStarts(j, rest);
    match j
    case Atom(x) => ScalarReads(x, rest);
    case Arr(items) =>
      assert t[0] == '[' && t[1..] == EmitItems(items, rest);
      if |items| > 0 {
        EmitStarts(items[0], AfterItem(items, rest));
        ItemsReadBack(items, rest);
      } else {
        assert ("]" + rest)[1..] == rest;
      }
    case Obj(members) =>
      assert t[0] == '{' && t[1..] == EmitMembers(members, rest);
      if |members| > 0 {
        MembersReadBack(members, rest);
      } else {
        assert ("}" + rest)[1..] == rest;
      }
  }

  lemma LastItem(t: string, x: Json, rest: string)
    requires ReadValue(t) == Some((x, "]" + rest))
    ensures ReadItems(t) == Some(([x], rest))
  {
    assert ("]" + rest)[0] == ']' && ("]" + rest)[1..] == rest;
  }

  lemma MoreItems(t: string, x: Json, more: string)
    requires ReadValue(t) == Some((x, "," + more)) && ReadItems(more).Some?
    ensures ReadItems(t) == Some(([x] + ReadItems(more).value.0, ReadItems(more).value.1))
  {
    assert ("," + more)[0] == ',' && ("," + more)[1..] == more;
  }

  lemma {:induction false} ItemsReadBack(items: seq<Json>, rest: string)
    requires |items| > 0
    ensures ReadItems(EmitItems(items, rest)) == Some((items, rest))
    decreases items, 1
  {
    var t := EmitItems(items, rest);
    ReadsBack(items[0], AfterItem(items, rest));
    if |items| == 1 {
      LastItem(t, items[0], rest);
      assert items == [items[0]];
    } else {
      ItemsReadBack(items[1..], rest);
      MoreItems(t, items[0], EmitItems(items[1..], rest));
      assert items == [items[0]] + items[1..];
    }
  }

  lemma {:induction false} MemberReadsBack(m: (string, Json), rest: string)
    requires Ends(rest)
    ensures ReadMember(EmitMember(m, rest)) == Some((m, rest))
    decreases m, 1
  {
    var t, value := EmitMember(m, rest), ":" + Emit(m.1, rest);
    assert t[0] == '\"' && t[1..] == EmitEscaped(m.0, "\"" + value);
    CharsRead(m.0, value);
    assert value[0] == ':' && value[1..] == Emit(m.1, rest);
    ReadsBack(m.1, rest);
  }

  lemma LastMember(t: string, m: (string, Json), rest: string)
    requires ReadMember(t) == Some((m, "}" + rest))
    ensures ReadMembers(t) == Some(([m], rest))
  {
    assert ("}" + rest)[0] == '}' && ("}" + rest)[1..] == rest;
  }

  lemma MoreMembers(t: string, m: (string, Json), more: string)
    requires ReadMember(t) == Some((m, "," + more)) && ReadMembers(more).Some?
    ensures ReadMembers(t) == Some(([m] + ReadMembers(more).value.0, ReadMembers(more).value.1))
  {
    assert ("," + more)[0] == ',' && ("," + more)[1..] == more;
  }

  lemma {:induction false} MembersReadBack(members: seq<(string, Json)>, rest: string)
    requires |members| > 0
    ensures ReadMembers(EmitMembers(members, rest)) == Some((members, rest))
    ensures EmitMembers(members, rest)[0] == '\"'
    decreases members, 1
  {
    var t := EmitMembers(members, rest);
    MemberReadsBack(members[0], AfterMember(members, rest));
    if |members| == 1 {
      LastMember(t, members[0], rest);
      assert members == [members[0]];
    } else {
      MembersReadBack(members[1..], rest);
      MoreMembers(t, members[0], EmitMembers(members[1..], rest));
      assert members == [members[0]] + members[1..];
    }
  }

  /** Reading a printed value gives it back. */
  lemma ReadPrint(j: Json)
    ensures Read(Print(j)) == Some(j)
  {
    ReadsBack(j, "");
  }

  // ----- no text of the same value is shorter -----

  lemma {:induction false} DigitsValue(a: string)
    requires |a| > 0 && (forall i :: 0 <= i < |a| ==> IsDigit(a[i])) && (|a| > 1 ==> a[0] != '0')
    ensures DecimalValue(a) >= 0 && NatText(DecimalValue(a)) == a
  {
    var front, last := a[..|a| - 1], a[|a| - 1];
    var d := last as int - '0' as int;
    DigitIs(d);
    assert a == front + [last] && Digit(d) == last;
    if |a| > 1 {
      PositiveValue(front);
      DigitsValue(front);
      NatTextSnoc(DecimalValue(front), d);
    } else {
      assert front == "" && a == [last];
    }
  }

  lemma {:induction false} PositiveValue(a: string)
    requires |a| > 0 && (forall i :: 0 <= i < |a| ==> IsDigit(a[i])) && a[0] != '0'
    ensures DecimalValue(a) > 0
  {
    if |a| > 1 {
      PositiveValue(a[..|a| - 1]);
    } else {
      assert a[..0] == "";
    }
  }

  lemma {:induction false} DigitsAre(t: string)
    ensures forall i :: 0 <= i < DigitCount(t) ==> IsDigit(t[i])
  {
    if DigitCount(t) > 0 {
      DigitsAre(t[1..]);
      assert forall i :: 0 < i < DigitCount(t) ==> t[i] == t[1..][i - 1];
    }
  }

  lemma NatShortest(t: string)
    requires ReadNat(t).Some?
    ensures ReadNat(t).value.0 >= 0 && |NatText(ReadNat(t).value.0)| + |ReadNat(t).value.1| == |t|
  {
    DigitsAre(t);
    DigitsValue(t[..DigitCount(t)]);
  }

  lemma {:induction false} IntTextLength(n: int)
    requires n >= 0
    ensures |IntText(n)| == |NatText(n)| && |IntText(-n)| <= 1 + |NatText(n)|
  {
  }

  lemma {:induction false} IntShortest(t: string)
    requires ReadInt(t).Some?
    ensures |IntText(ReadInt(t).value.0)| + |ReadInt(t).value.1| <= |t|
  {
    var digits := if |t| > 0 && t[0] == '-' then t[1..] else t;
    NatShortest(digits);
    IntTextLength(ReadNat(digits).value.0);
  }

  lemma CharShortest(t: string)
    requires |t| > 0 && t[0] != '\"' && ReadChar(t).Some?
    ensures |EscapeChar(ReadChar(t).value.0)| <= ReadChar(t).value.1
  {
  }

  lemma {:induction false} EscapedLength(s: string, rest: string)
    ensures |EmitEscaped(s, rest)| == |EmitEscaped(s, "")| + |rest|
  {
    if |s| > 0 { EscapedLength(s[1..], rest); }
  }

  lemma {:induction false} EmitLength(j: Json, rest: string)
    ensures |Emit(j, rest)| == |Emit(j, "")| + |rest|
    decreases j, 0
  {
    match j
    case Atom(x) => if x.Str? { EscapedLength(x.s, "\"" + rest); EscapedLength(x.s, "\"" + ""); }
    case Arr(items) => ItemsLength(items, rest);
    case Obj(members) => MembersLength(members, rest);
  }

  lemma {:induction false} ItemsLength(items: seq<Json>, rest: string)
    ensures |EmitItems(items, rest)| == |EmitItems(items, "")| + |rest|
    decreases items, 1
  {
    if |items| > 0 {
      EmitLength(items[0], AfterItem(items, rest));
      EmitLength(items[0], AfterItem(items, ""));
      if |items| > 1 { ItemsLength(items[1..], rest); }
    }
  }

  lemma {:induction false} MembersLength(members: seq<(string, Json)>, rest: string)
    ensures |EmitMembers(members, rest)| == |EmitMembers(members, "")| + |rest|
    decreases members, 1
  {
    if |members| > 0 {
      MemberLength(members[0], AfterMember(members, rest));
      MemberLength(members[0], AfterMember(members, ""));
      if |members| > 1 { MembersLength(members[1..], rest); }
    }
  }

  lemma {:induction false} MemberLength(m: (string, Json), rest: string)
    ensures |EmitMember(m, rest)| == |EmitMember(m, "")| + |rest|
    decreases m, 1
  {
    EscapedLength(m.0, "\"" + (":" + Emit(m.1, rest)));
    EscapedLength(m.0, "\"" + (":" + Emit(m.1, "")));
    EmitLength(m.1, rest);
  }

  lemma {:induction false} CharsShortest(t: string)
    requires ReadChars(t).Some?
    ensures |EmitEscaped(ReadChars(t).value.0, "\"" + ReadChars(t).value.1)| <= |t|
    decreases |t|
  {
    if t[0] != '\"' {
      var c := ReadChar(t).value;
      CharShortest(t);
      CharsShortest(t[c.1..]);
      var r := ReadChars(t[c.1..]).value;
      assert ([c.0] + r.0)[1..] == r.0;
    }
  }

  /** The printed text of what was read is no longer than the text read. */
  lemma {:induction false} ValueShortest(t: string)
    requires ReadValue(t).Some?
    ensures |Emit(ReadValue(t).value.0, ReadValue(t).value.1)| <= |t|
    decreases |t|, 0
  {
    var s := Skip(t);
    if s[0] == '\"' {
      CharsShortest(s[1..]);
    } else if s[0] == '[' {
      if !(|Skip(s[1..])| > 0 && Skip(s[1..])[0] == ']') { ItemsShortest(s[1..]); }
    } else if s[0] == '{' {
      if !(|Skip(s[1..])| > 0 && Skip(s[1..])[0] == '}') { MembersShortest(s[1..]); }
    } else if s[0] != 'n' && s[0] != 't' && s[0] != 'f' {
      IntShortest(s);
    }
  }

  lemma {:induction false} ItemsShortest(t: string)
    requires ReadItems(t).Some?
    ensures |ReadItems(t).value.0| > 0
    ensures |EmitItems(ReadItems(t).value.0, ReadItems(t).value.1)| <= |t|
    decreases |t|, 1
  {
    var first := ReadValue(t).value;
    var s := Skip(first.1);
    ValueShortest(t);
    EmitLength(first.0, first.1);
    var r := ReadItems(t).value;
    if s[0] == ']' {
      EmitLength(first.0, "]" + r.1);
    } else {
      ItemsShortest(s[1..]);
      var more := ReadItems(s[1..]).value;
      assert ([first.0] + more.0)[1..] == more.0;
      EmitLength(first.0, "," + EmitItems(more.0, more.1));
    }
  }

  lemma {:induction false} MemberShortest(t: string)
    requires ReadMember(t).Some?
    ensures |EmitMember(ReadMember(t).value.0, ReadMember(t).value.1)| <= |t|
    decreases |t|, 1
  {
    var s := Skip(t);
    var key := ReadChars(s[1..]).value;
    var u := Skip(key.1);
    var x := ReadValue(u[1..]).value;
    CharsShortest(s[1..]);
    ValueShortest(u[1..]);
    EscapedLength(key.0, "\"" + key.1);
    EscapedLength(key.0, "\"" + (":" + Emit(x.0, x.1)));
  }

  lemma {:induction false} MembersShortest(t: string)
    requires ReadMembers(t).Some?
    ensures |ReadMembers(t).value.0| > 0
    ensures |EmitMembers(ReadMembers(t).value.0, ReadMembers(t).value.1)| <= |t|
    decreases |t|, 2
  {
    var first := ReadMember(t).value;
    var s := Skip(first.1);
    MemberShortest(t);
    MemberLength(first.0, first.1);
    var r := ReadMembers(t).value;
    if s[0] == '}' {
      MemberLength(first.0, "}" + r.1);
    } else {
      MembersShortest(s[1..]);
      var more := ReadMembers(s[1..]).value;
      assert ([first.0] + more.0)[1..] == more.0;
      MemberLength(first.0, "," + EmitMembers(more.0, more.1));
    }
  }

  /** No text that denotes a value is shorter than its printed text. */
  lemma PrintShortest(t: string)
    requires Read(t).Some?
    ensures |Print(Read(t).value)| <= |t|
  {
    ValueShortest(t);
    var r := ReadValue(t).value;
    EmitLength(r.0, r.1);
  }

  /** The escapes spell their hexadecimal digits in lower case. */
  lemma EscapesLower(c: char)
    ensures EscapeChar(c) != [c] ==> forall i :: 0 <= i < |EscapeChar(c)| ==> !('A' <= EscapeChar(c)[i] <= 'Z')
  {
    assert HEX == ['0', '1', '2', '3', '4', '5', '6', '7', '8', '9', 'a', 'b', 'c', 'd', 'e', 'f'];
  }

  // ----- what canonical text denotes -----

  /** A member's key is the text of the dict's key, which for an int is its decimal. */
  ghost predicate KeyIs(text: string, v: Value, i: nat)
    requires Dictlike(v) && i < Width(v)
  {
    match v
    case Record(fields) => text == fields[i].0
    case Dict(entries) =>
      match entries[i].0
      case TextKey(s) => text == s
      case IntKey(n) => ReadInt(text) == Some((n, ""))
  }

  /** `j` is the JSON of `v`: the same scalars, lists in order, and for a dict or dataclass an object with
      one member per entry in ascending key order. */
  ghost predicate Denotes(j: Json, v: Value)
    decreases v, 2
  {
    if Listlike(v) then
      j.Arr? && |j.items| == Width(v)
      && forall i {:trigger Child(v, i)} :: 0 <= i < Width(v) ==> Denotes(j.items[i], Child(v, i))
    else if Dictlike(v) then
      && j.Obj? && Ascending(MemberKey, j.members) && |j.members| == Width(v)
      && (forall m :: m in j.members ==> HasEntry(m, v))
      && (forall i :: 0 <= i < Width(v) ==> HasMember(j.members, v, i))
    else j == Atom(ScalarOf(v))
  }

  ghost predicate MemberOf(m: (string, Json), v: Value, i: nat)
    requires Dictlike(v) && i < Width(v)
    decreases v, 1, 0
  {
    KeyIs(m.0, v, i) && Denotes(m.1, Child(v, i))
  }

  ghost predicate HasEntry(m: (string, Json), v: Value)
    requires Dictlike(v)
    decreases v, 1, 1
  {
    exists i :: 0 <= i < Width(v) && MemberOf(m, v, i)
  }

  ghost predicate HasMember(members: seq<(string, Json)>, v: Value, i: nat)
    requires Dictlike(v) && i < Width(v)
    decreases v, 1, 1
  {
    exists m :: m in members && MemberOf(m, v, i)
  }

  lemma ChildKeyIs(v: Value, i: nat)
    requires Dictlike(v) && i < Width(v)
    ensures KeyIs(ChildKey(v, i), v, i)
  {
    if v.Dict? && v.entries[i].0.IntKey? {
      IntReads(v.entries[i].0.n, "");
      assert IntText(v.entries[i].0.n) + "" == IntText(v.entries[i].0.n);
    }
  }

  lemma {:induction false} NormDenotes(v: Value)
    requires WellFormed(v) && ToCanonical(v).Some?
    ensures Denotes(Norm(v), v)
    decreases v
  {
    if Listlike(v) {
      NormItemsAt(v);
      forall i {:trigger Child(v, i)} | 0 <= i < Width(v) ensures Denotes(Norm(v).items[i], Child(v, i)) {
        NormDenotes(Child(v, i));
      }
    } else if Dictlike(v) {
      NormObject(v);
      forall i | 0 <= i < Width(v)
        ensures ToCanonical(Child(v, i)).Some? && MemberOf((ChildKey(v, i), Norm(Child(v, i))), v, i)
      {
        NormMembersTo(v, i);
        ChildKeyIs(v, i);
        NormDenotes(Child(v, i));
      }
      forall m | m in Norm(v).members ensures HasEntry(m, v) {
        SortMembers(MemberKey, NormMembers(v), m);
        var i := NormMembersFrom(v, m);
      }
      forall i | 0 <= i < Width(v) ensures HasMember(Norm(v).members, v, i) {
        NormMembersTo(v, i);
        SortMembers(MemberKey, NormMembers(v), (ChildKey(v, i), Norm(Child(v, i))));
      }
    }
  }

  lemma NormObject(v: Value)
    requires WellFormed(v) && Dictlike(v) && ToCanonical(v).Some?
    ensures Norm(v).Obj? && Norm(v).members == SortBy(MemberKey, NormMembers(v))
    ensures Ascending(MemberKey, Norm(v).members) && |Norm(v).members| == Width(v)
  {
    NormMembersDistinct(v);
    RawEntriesAt(v);
    SortAscending(MemberKey, NormMembers(v));
    SortedLength(RawEntries(v).value);
  }

  lemma {:induction false} SortedLength(s: seq<(Key, Json)>)
    ensures |SortEntries(s)| == |s|
  {
    if |s| > 0 {
      SortedLength(s[1..]);
      InsertedLength(s[0], SortEntries(s[1..]));
    }
  }

  lemma {:induction false} InsertedLength(e: (Key, Json), s: seq<(Key, Json)>)
    ensures |InsertEntry(e, s)| == |s| + 1
  {
    if |s| > 0 { InsertedLength(e, s[1..]); }
  }

  /** Canonical text, read by the grammar, denotes the value it was made of, and no text that reads the
      same is shorter. */
  lemma CanonicalTextDenotes(limit: nat, v: Value)
    requires WellFormed(v) && CanonicalJson(limit, v).Some?
    ensures var text := CanonicalJson(limit, v).value;
      && Read(text).Some? && Denotes(Read(text).value, v)
      && forall t :: Read(t) == Read(text) ==> |text| <= |t|
  {
    var text := CanonicalJson(limit, v).value;
    ReadPrint(Norm(v));
    NormDenotes(v);
    forall t | Read(t) == Read(text) ensures |text| <= |t| { PrintShortest(t); }
  }
}
