/** The texts `string_to_int` takes for numbers, written out, and what number each of them is. */
module NumberGrammar {
  import opened Convert
  import opened Numerals
  import opened Results
  import opened Sequences

  /** What `isspace` skips: blank, tab, line feed, vertical tab, form feed and carriage return. */
  predicate Blank(s: string) {
    forall i :: 0 <= i < |s| ==> s[i] in {' ', '\t', '\n', '\U{0B}', '\U{0C}', '\r'}
  }

  /** How a base is announced in front of the digits, and what closes them. */
  predicate Notation(prefix: string, base: nat, close: string) {
    || (prefix in {"0x", "0X"} && base == 16 && close == "")
    || (prefix in {"0b", "0B"} && base == 2 && close == "")
    || (prefix == "0" && base == 8 && close == "")
    || (prefix == "" && base == 10 && close == "")
    || (prefix in {"x'", "X'"} && base == 16 && close == "'")
  }

  /**
   * The parts of a number: blanks, a sign, the digits in their notation, blanks; a C string ends at its
   * first NUL character. A decimal number does not start with a zero, which announces octal. There may be
   * no digits at all.
   */
  datatype Parts = Parts(before: string, sign: string, prefix: string, base: nat, digits: string, close: string,
                         after: string, rest: string)

  function Whole(p: Parts): string {
    p.before + (p.sign + Unsigned(p))
  }

  function Unsigned(p: Parts): string {
    p.prefix + (p.digits + (p.close + (p.after + p.rest)))
  }

  predicate Spells(s: string, p: Parts) {
    s == Whole(p) && Blank(p.before) && p.sign in {"", "+", "-"} && WellFormed(p)
  }

  predicate WellFormed(p: Parts) {
    && Notation(p.prefix, p.base, p.close) && AllDigits(p.digits, p.base)
    && (p.prefix == "" && p.digits != "" ==> p.digits[0] != '0')
    && Blank(p.after) && (p.rest != "" ==> p.rest[0] == '\0')
  }

  /** The number the parts stand for. */
  function NumberOf(p: Parts): int
    requires WellFormed(p)
  {
    if p.sign == "-" then 0 - ParseDigits(p.digits, p.base) else ParseDigits(p.digits, p.base)
  }

  // ---- texts of the form are read as their number ----

  lemma {:induction false} SkipsBlanks(s: string, n: nat, e: nat)
    requires n <= e <= |s| && Blank(s[n..e])
    ensures SkipSpaces(s, n) == SkipSpaces(s, e)
    decreases e - n
  {
    if n < e {
      assert s[n] == s[n..e][0];
      assert s[n + 1..e] == s[n..e][1..];
      SkipsBlanks(s, n + 1, e);
    }
  }

  lemma {:induction false} DigitsRun(s: string, n: nat, e: nat, base: nat)
    requires n <= e <= |s| && AllDigits(s[n..e], base) && DigitOf(At(s, e)) >= base
    ensures DigitsEnd(s, n, base) == e
    decreases e - n
  {
    if n < e {
      assert s[n] == s[n..e][0];
      assert s[n + 1..e] == s[n..e][1..];
      DigitsRun(s, n + 1, e, base);
    }
  }

  /** What stands behind the digits is neither a digit nor a letter. */
  lemma Behind(s: string, t: nat, after: string, rest: string)
    requires t <= |s| && s[t..] == after + rest && Blank(after) && (rest != "" ==> rest[0] == '\0')
    ensures At(s, t) == '\0' || IsSpace(At(s, t))
    ensures SkipSpaces(s, t) == t + |after| && At(s, t + |after|) == '\0' && At(s, SkipSpaces(s, t)) == '\0'
  {
    var e := t + |after|;
    assert s[t..e] == after && s[e..] == rest;
    SkipsBlanks(s, t, e);
    if t < |s| {
      assert s[t] == (after + rest)[0];
    }
    if e < |s| {
      assert s[e] == rest[0];
    }
  }

  lemma FormOf(s: string, b: nat, prefix: string, base: nat, digits: string, close: string, e: nat)
    requires Notation(prefix, base, close) && AllDigits(digits, base) && e == b + |prefix| + |digits| <= |s|
    requires s[b..e] == prefix + digits && (prefix == "" && digits != "" ==> digits[0] != '0')
    requires close == "" ==> At(s, e) == '\0' || IsSpace(At(s, e))
    requires close != "" ==> At(s, e) == '\''
    ensures DetectForm(s, b) == Form(base, b + |prefix|, close != "")
  {
    hide ParseDigits;
    forall i | b <= i < e ensures s[i] == if i < b + |prefix| then prefix[i - b] else digits[i - b - |prefix|] {
      assert s[i] == s[b..e][i - b];
    }
    if digits != "" {
      assert s[b + |prefix|] == digits[0] && DigitOf(digits[0]) < base;
    }
  }

  lemma FormPlaces(s: string, b: nat, p: Parts)
    requires b <= |s| && s[b..] == Unsigned(p)
    ensures var start := b + |p.prefix|; var e := start + |p.digits|; var t := e + |p.close|;
            && t <= |s| && s[b..e] == p.prefix + p.digits && s[start..e] == p.digits
            && s[e..t] == p.close && s[t..] == p.after + p.rest
  {
    var start := b + |p.prefix|;
    var e := start + |p.digits|;
    SplitAt(s, b, p.prefix, p.digits + (p.close + (p.after + p.rest)));
    SplitAt(s, start, p.digits, p.close + (p.after + p.rest));
    SplitAt(s, e, p.close, p.after + p.rest);
    JoinedSlices(s, b, start, e);
  }

  /** What the reader finds behind the sign. */
  lemma FormFound(s: string, b: nat, p: Parts)
    requires b <= |s| && s[b..] == Unsigned(p) && WellFormed(p)
    ensures DetectForm(s, b) == Form(p.base, b + |p.prefix|, p.close != "")
    ensures b + |p.prefix| + |p.digits| + |p.close| <= |s|
    ensures DigitsEnd(s, b + |p.prefix|, p.base) == b + |p.prefix| + |p.digits|
    ensures s[b + |p.prefix|..b + |p.prefix| + |p.digits|] == p.digits
    ensures Ended(s, b + |p.prefix| + |p.digits|, p.close)
  {
    hide ParseDigits, DetectForm, SkipSpaces, DigitsEnd, Notation, Blank, DigitOf, Unsigned, At;
    var start := b + |p.prefix|;
    var e := start + |p.digits|;
    FormPlaces(s, b, p);
    Behind(s, e + |p.close|, p.after, p.rest);
    Closed(s, e, p);
    FormOf(s, b, p.prefix, p.base, p.digits, p.close, e);
    DigitsRun(s, start, e, p.base);
  }

  /** A quote, if the digits are quoted, and then only blanks. */
  predicate Ended(s: string, e: nat, close: string)
    requires e + |close| <= |s|
  {
    && (close != "" ==> At(s, e) == '\'' && |close| == 1)
    && At(s, SkipSpaces(s, e + |close|)) == '\0'
  }

  /** The number behind the sign. */
  lemma FormRead(s: string, b: nat, p: Parts, negative: bool)
    requires b <= |s| && s[b..] == Unsigned(p) && WellFormed(p)
    ensures var v := ParseDigits(p.digits, p.base);
            WrittenFrom(s, b, negative) == Ok(if negative then 0 - v else v)
  {
    hide *;
    FormFound(s, b, p);
    FoundRead(s, b, Form(p.base, b + |p.prefix|, p.close != ""), b + |p.prefix| + |p.digits|, p.close, negative);
    DigitsGiven(p);
  }

  lemma FoundRead(s: string, b: nat, f: Form, e: nat, close: string, negative: bool)
    requires b <= |s| && DetectForm(s, b) == f && DigitsEnd(s, f.start, f.base) == e && f.quoted == (close != "")
    requires e + |close| <= |s| && Ended(s, e, close)
    ensures AllDigits(s[f.start..e], f.base)
    ensures var v := ParseDigits(s[f.start..e], f.base);
            WrittenFrom(s, b, negative) == Ok(if negative then 0 - v else v)
  {
    hide ParseDigits, DetectForm, SkipSpaces, DigitsEnd, At;
  }

  lemma JoinedSlices(s: string, b: nat, x: nat, e: nat)
    requires b <= x <= e <= |s|
    ensures s[b..e] == s[b..x] + s[x..e]
  {
  }

  /** What stops the digits. */
  lemma Closed(s: string, e: nat, p: Parts)
    requires Notation(p.prefix, p.base, p.close) && e + |p.close| <= |s| && s[e..e + |p.close|] == p.close
    requires At(s, e + |p.close|) == '\0' || IsSpace(At(s, e + |p.close|))
    ensures p.base <= 16 && DigitOf(At(s, e)) >= p.base && |p.close| == (if p.close != "" then 1 else 0)
    ensures p.close == "" ==> At(s, e) == '\0' || IsSpace(At(s, e))
    ensures p.close != "" ==> At(s, e) == '\''
  {
    assert p.close != "" ==> s[e] == p.close[0];
  }

  /** A text of the form is read as its number; without negative numbers a minus sign is refused. */
  lemma SpelledIsRead(s: string, p: Parts)
    requires Spells(s, p)
    ensures Written(s, true) == Ok(NumberOf(p))
    ensures Written(s, false) == if p.sign == "-" then Err(InvalidNumber) else Ok(NumberOf(p))
  {
    hide ParseDigits, WrittenFrom, SkipSpaces, WellFormed, Unsigned, Blank;
    var a := |p.before|;
    assert s[0..] == s;
    SplitAt(s, 0, p.before, p.sign + Unsigned(p));
    SplitAt(s, a, p.sign, Unsigned(p));
    SkipsBlanks(s, 0, a);
    DigitsGiven(p);
    if p.sign == "" && p.prefix == "" && p.digits == "" {
      NothingRead(s, a, p);
    } else {
      CoreStarts(s, a, p);
      FormRead(s, a + |p.sign|, p, p.sign == "-");
    }
  }

  lemma DigitsGiven(p: Parts)
    requires WellFormed(p)
    ensures AllDigits(p.digits, p.base)
  {
  }

  /** Blanks alone are read as the number 0. */
  lemma NothingRead(s: string, a: nat, p: Parts)
    requires a <= |s| && s[a..] == Unsigned(p) && WellFormed(p) && p.prefix == "" && p.digits == ""
    ensures var e := SkipSpaces(s, a);
            e <= |s| && At(s, e) == '\0' && WrittenFrom(s, e, false) == Ok(ParseDigits(p.digits, p.base))
  {
    hide ParseDigits, SkipSpaces, WrittenFrom, Blank;
    assert Unsigned(p) == p.after + p.rest;
    Behind(s, a, p.after, p.rest);
    SplitAt(s, a, p.after, p.rest);
    var q := p.(after := "");
    NoBlanks();
    assert Unsigned(q) == p.rest;
    FormRead(s, a + |p.after|, q, false);
  }

  lemma NoBlanks()
    ensures Blank("")
  {
  }

  lemma CoreStarts(s: string, a: nat, p: Parts)
    requires a <= |s| && s[a..] == p.sign + Unsigned(p) && p.sign in {"", "+", "-"} && WellFormed(p)
    requires !(p.sign == "" && p.prefix == "" && p.digits == "")
    ensures SkipSpaces(s, a) == a
    ensures (p.sign == "-" <==> At(s, a) == '-') && (p.sign == "+" <==> At(s, a) == '+')
  {
    hide ParseDigits, Blank;
    var c := if p.sign != "" then p.sign[0] else if p.prefix != "" then p.prefix[0] else p.digits[0];
    assert (p.sign + Unsigned(p))[0] == c;
    assert s[a] == c;
    assert p.sign == "" && p.prefix == "" ==> DigitOf(c) < 10;
  }

  // ---- nothing else is read ----

  lemma {:induction false} SkippedBlank(s: string, n: nat)
    requires n <= |s|
    ensures Blank(s[n..SkipSpaces(s, n)])
    decreases |s| - n
  {
    if n < |s| && IsSpace(s[n]) {
      SkippedBlank(s, n + 1);
      assert s[n..SkipSpaces(s, n)] == [s[n]] + s[n + 1..SkipSpaces(s, n)];
    }
  }

  lemma {:induction false} SkipsAll(s: string, n: nat)
    requires n <= |s|
    ensures !IsSpace(At(s, SkipSpaces(s, n)))
    decreases |s| - n
  {
    if n < |s| && IsSpace(s[n]) {
      SkipsAll(s, n + 1);
    }
  }

  lemma FormParts(s: string, b: nat) returns (prefix: string)
    requires b <= |s|
    ensures var f := DetectForm(s, b);
            prefix == s[b..f.start] && Notation(prefix, f.base, if f.quoted then "'" else "")
    ensures var f := DetectForm(s, b); prefix == "" && f.start < |s| ==> s[f.start] != '0'
  {
    var f := DetectForm(s, b);
    prefix := s[b..f.start];
    if f.start == b + 2 {
      assert prefix == [s[b], s[b + 1]];
    } else if f.start == b + 1 {
      assert prefix == [s[b]];
    }
  }

  /** The parts of the number behind the sign. */
  lemma ReadForm(s: string, b: nat, negative: bool) returns (p: Parts)
    requires b <= |s| && WrittenFrom(s, b, negative).Ok?
    ensures s[b..] == Unsigned(p) && WellFormed(p)
  {
    hide ParseDigits, DetectForm, SkipSpaces, Notation, Blank, Unsigned, DigitOf, WellFormed, AllDigits;
    var f := DetectForm(s, b);
    var e := DigitsEnd(s, f.start, f.base);
    var prefix := FormParts(s, b);
    var close := if f.quoted then "'" else "";
    var c := e + |close|;
    var t := SkipSpaces(s, c);
    SkippedBlank(s, c);
    p := Parts("", "", prefix, f.base, s[f.start..e], close, s[c..t], s[t..]);
    assert f.start < e ==> s[f.start..e][0] == s[f.start];
    assert t < |s| ==> s[t..][0] == s[t];
    CloseIs(s, e, c, close);
    IsUnsigned(s, b, f.start, e, c, t, p);
    IsWellFormed(p);
  }

  lemma CloseIs(s: string, e: nat, c: nat, close: string)
    requires e <= |s| && c == e + |close| && close in {"", "'"} && (close != "" ==> At(s, e) == '\'')
    ensures c <= |s| && s[e..c] == close
  {
  }

  lemma IsUnsigned(s: string, b: nat, x: nat, e: nat, c: nat, t: nat, p: Parts)
    requires b <= x <= e <= c <= t <= |s|
    requires p.prefix == s[b..x] && p.digits == s[x..e] && p.close == s[e..c]
    requires p.after == s[c..t] && p.rest == s[t..]
    ensures s[b..] == Unsigned(p)
  {
    JoinAt(s, b, x);
    JoinAt(s, x, e);
    JoinAt(s, e, c);
    JoinAt(s, c, t);
  }

  lemma IsWellFormed(p: Parts)
    requires Notation(p.prefix, p.base, p.close) && AllDigits(p.digits, p.base)
    requires p.prefix == "" && p.digits != "" ==> p.digits[0] != '0'
    requires Blank(p.after) && (p.rest != "" ==> p.rest[0] == '\0')
    ensures WellFormed(p)
  {
  }

  /** Whatever is read is of the form. */
  lemma ReadIsSpelled(s: string) returns (p: Parts)
    requires Written(s, true).Ok?
    ensures Spells(s, p)
  {
    hide ParseDigits, WrittenFrom, SkipSpaces, WellFormed, Blank, Unsigned;
    var a := SkipSpaces(s, 0);
    var sign := if At(s, a) == '-' then "-" else if At(s, a) == '+' then "+" else "";
    var b := a + |sign|;
    SkippedBlank(s, 0);
    var q := ReadForm(s, b, sign == "-");
    assert s[0..a] == s[..a] && s[a..b] == sign && s[0..] == s;
    JoinAt(s, 0, a);
    JoinAt(s, a, b);
    p := q.(before := s[..a], sign := sign);
    SameForm(q, p);
  }

  lemma SameForm(q: Parts, p: Parts)
    requires p == q.(before := p.before, sign := p.sign)
    ensures Unsigned(p) == Unsigned(q) && WellFormed(p) == WellFormed(q)
  {
  }

  /** The grammar of the reader: a text is a number exactly when it has the form; all others are invalid. */
  lemma Grammar(s: string)
    ensures Written(s, true).Ok? <==> exists p: Parts :: Spells(s, p)
    ensures Written(s, true).Err? ==> Written(s, true).error == InvalidNumber
    ensures Written(s, false).Ok? <==> exists p: Parts :: Spells(s, p) && p.sign != "-"
    ensures Written(s, false).Err? ==> Written(s, false).error == InvalidNumber
    ensures forall p: Parts :: Spells(s, p) ==> Written(s, true) == Ok(NumberOf(p))
  {
    hide Written, Whole, Blank, WellFormed, NumberOf;
    forall p: Parts | Spells(s, p)
      ensures Written(s, true) == Ok(NumberOf(p))
      ensures Written(s, false) == if p.sign == "-" then Err(InvalidNumber) else Ok(NumberOf(p))
    {
      SpelledIsRead(s, p);
    }
    Refusals(s);
    if Written(s, true).Ok? {
      var p := ReadIsSpelled(s);
    }
  }

  lemma Refusals(s: string)
    ensures Written(s, true).Err? ==> Written(s, true).error == InvalidNumber
    ensures Written(s, false).Err? ==> Written(s, false).error == InvalidNumber
    ensures Written(s, false).Ok? ==> Written(s, true) == Written(s, false)
  {
    hide ParseDigits, DetectForm, SkipSpaces;
  }
}
