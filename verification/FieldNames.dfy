/** The recognizers of field definitions, against the grammars their documentation gives. */
module FieldNames {
  import opened Results

  predicate Letter(c: char) {
    'a' <= c <= 'z' || 'A' <= c <= 'Z' || c == '_'
  }

  predicate Digit(c: char) {
    '0' <= c <= '9'
  }

  predicate NameChar(c: char) {
    Letter(c) || Digit(c)
  }

  const LETTERS: string := "ABCDEFGHIJKLMNOPQRSTUVWXYZ"
  const SMALL: string := "abcdefghijklmnopqrstuvwxyz"
  const DIGITS: string := "0123456789"

  /** The characters of names: the letters of both cases and the underscore, and the digits. */
  lemma NameAlphabet(c: char)
    ensures Letter(c) <==> c in LETTERS || c in SMALL || c == '_'
    ensures Digit(c) <==> c in DIGITS
  {
    hide LETTERS, SMALL, DIGITS;
    if 'A' <= c <= 'Z' {
      AlphabetAt(c as int - 'A' as int);
    } else if 'a' <= c <= 'z' {
      AlphabetAt(c as int - 'a' as int);
    } else if '0' <= c <= '9' {
      DigitAt(c as int - '0' as int);
    }
    OnlyAlphabet(c);
  }

  lemma AlphabetAt(k: nat)
    requires k < 26
    ensures |LETTERS| == |SMALL| == 26
    ensures LETTERS[k] == 'A' + k as char && SMALL[k] == 'a' + k as char
  {
  }

  lemma DigitAt(k: nat)
    requires k < 10
    ensures |DIGITS| == 10 && DIGITS[k] == '0' + k as char
  {
  }

  lemma OnlyAlphabet(c: char)
    ensures c in LETTERS ==> 'A' <= c <= 'Z'
    ensures c in SMALL ==> 'a' <= c <= 'z'
    ensures c in DIGITS ==> '0' <= c <= '9'
  {
    hide LETTERS, SMALL, DIGITS;
    AlphabetAt(0);
    DigitAt(0);
    if c in LETTERS {
      var k :| 0 <= k < |LETTERS| && LETTERS[k] == c;
      AlphabetAt(k);
    }
    if c in SMALL {
      var k :| 0 <= k < |SMALL| && SMALL[k] == c;
      AlphabetAt(k);
    }
    if c in DIGITS {
      var k :| 0 <= k < |DIGITS| && DIGITS[k] == c;
      DigitAt(k);
    }
  }

  // ---- the grammars ----

  ghost predicate AllNameChars(s: string) {
    forall i :: 0 <= i < |s| ==> NameChar(s[i])
  }

  ghost predicate AllDigits(s: string) {
    forall i :: 0 <= i < |s| ==> Digit(s[i])
  }

  /** A name: a letter or underscore, then letters, digits and underscores, at most `max` in all. */
  ghost predicate Name(s: string, max: nat) {
    0 < |s| <= max && Letter(s[0]) && AllNameChars(s)
  }

  /** <name>[:<size>] */
  ghost predicate Flag(s: string, max: nat) {
    Name(s, max) || exists name: string, size: string ::
      s == name + ":" + size && Name(name, max) && |size| > 0 && AllDigits(size)
  }

  function Join(flags: seq<string>): string
    requires |flags| > 0
  {
    if |flags| == 1 then flags[0] else flags[0] + "/" + Join(flags[1..])
  }

  ghost predicate FlagList(flags: seq<string>, max: nat) {
    |flags| > 0 && forall i :: 0 <= i < |flags| ==> Flag(flags[i], max)
  }

  /** <name>=<name>[:<size>][/<name>[:<size>]/...] */
  ghost predicate BitField(s: string, max: nat) {
    exists name: string, flags: seq<string> ::
      Name(name, max) && FlagList(flags, max) && |flags| > 0 && s == name + "=" + Join(flags)
  }

  /** <name>=<size> */
  ghost predicate CharField(s: string, max: nat) {
    exists name: string, size: string :: Name(name, max) && |size| > 0 && AllDigits(size) && s == name + "=" + size
  }

  // ---- the automaton behind the equal sign ----

  /**
   * Whether the rest of the text is accepted: 0 before a name, 1 in a name of n characters so far,
   * 2 before a size, 3 in a size.
   */
  predicate Accepts(state: nat, n: nat, s: string, max: nat)
    decreases |s|
  {
    if |s| == 0 then
      state == 3 || (state == 1 && n <= max)
    else if state == 0 then
      Letter(s[0]) && Accepts(1, 1, s[1..], max)
    else if state == 1 then
      if s[0] == ':' then n <= max && Accepts(2, 0, s[1..], max)
      else if s[0] == '/' then n <= max && Accepts(0, 0, s[1..], max)
      else NameChar(s[0]) && Accepts(1, n + 1, s[1..], max)
    else if s[0] == '/' then
      state == 3 && Accepts(0, 0, s[1..], max)
    else
      Digit(s[0]) && Accepts(3, 0, s[1..], max)
  }

  /** Through the characters of a name. */
  lemma {:induction false} ThroughName(n: nat, u: string, v: string, max: nat)
    requires AllNameChars(u)
    ensures Accepts(1, n, u + v, max) == Accepts(1, n + |u|, v, max)
    decreases |u|
  {
    if |u| == 0 {
      assert u + v == v;
    } else {
      assert (u + v)[1..] == u[1..] + v && (u + v)[0] == u[0];
      ThroughName(n + 1, u[1..], v, max);
    }
  }

  /** Through the digits of a size. */
  lemma {:induction false} ThroughSize(state: nat, u: string, v: string, max: nat)
    requires AllDigits(u) && |u| > 0 && (state == 2 || state == 3)
    ensures Accepts(state, 0, u + v, max) == Accepts(3, 0, v, max)
    decreases |u|
  {
    assert (u + v)[1..] == u[1..] + v && (u + v)[0] == u[0];
    if |u| == 1 {
      assert u[1..] + v == v;
    } else {
      ThroughSize(3, u[1..], v, max);
    }
  }

  /** Through a whole name. */
  lemma ThroughStart(name: string, v: string, max: nat)
    requires Name(name, max)
    ensures Accepts(0, 0, name + v, max) == Accepts(1, |name|, v, max)
  {
    assert (name + v)[1..] == name[1..] + v && (name + v)[0] == name[0];
    ThroughName(1, name[1..], v, max);
  }

  /** Through a colon and the size behind it. */
  lemma ThroughColon(n: nat, size: string, v: string, max: nat)
    requires n <= max && |size| > 0 && AllDigits(size)
    ensures Accepts(1, n, ":" + (size + v), max) == Accepts(3, 0, v, max)
  {
    assert (":" + (size + v))[1..] == size + v;
    ThroughSize(2, size, v, max);
  }

  lemma ThroughSlash(state: nat, n: nat, v: string, max: nat)
    requires (state == 1 && n <= max) || state == 3
    requires v == "" || v[0] == '/'
    ensures Accepts(state, n, v, max) == (v == "" || Accepts(0, 0, v[1..], max))
  {
  }

  /** Through a flag that ends the text or is followed by a slash. */
  lemma ThroughFlag(flag: string, v: string, max: nat)
    requires Flag(flag, max) && (v == "" || v[0] == '/')
    ensures Accepts(0, 0, flag + v, max) == (v == "" || Accepts(0, 0, v[1..], max))
  {
    hide Accepts, AllDigits, Name;
    if Name(flag, max) {
      ThroughPlain(flag, v, max);
    } else {
      var name: string, size: string :| flag == name + ":" + size && Name(name, max) && |size| > 0 && AllDigits(size);
      ThroughSized(name, size, v, max);
    }
  }

  lemma ThroughPlain(name: string, v: string, max: nat)
    requires Name(name, max) && (v == "" || v[0] == '/')
    ensures Accepts(0, 0, name + v, max) == (v == "" || Accepts(0, 0, v[1..], max))
  {
    hide Accepts, AllNameChars;
    ThroughStart(name, v, max);
    ThroughSlash(1, |name|, v, max);
  }

  lemma ThroughSized(name: string, size: string, v: string, max: nat)
    requires Name(name, max) && |size| > 0 && AllDigits(size) && (v == "" || v[0] == '/')
    ensures Accepts(0, 0, name + ":" + size + v, max) == (v == "" || Accepts(0, 0, v[1..], max))
  {
    hide Accepts, AllNameChars, AllDigits;
    assert name + ":" + size + v == name + (":" + (size + v));
    ThroughStart(name, ":" + (size + v), max);
    ThroughColon(|name|, size, v, max);
    ThroughSlash(3, 0, v, max);
  }

  /** Every list of flags is accepted. */
  lemma {:induction false} ListAccepted(flags: seq<string>, max: nat)
    requires FlagList(flags, max)
    ensures Accepts(0, 0, Join(flags), max)
    decreases |flags|
  {
    hide Flag, Accepts;
    if |flags| == 1 {
      assert flags[0] + "" == flags[0];
      ThroughFlag(flags[0], "", max);
    } else {
      ListAccepted(flags[1..], max);
      var v := "/" + Join(flags[1..]);
      assert Join(flags) == flags[0] + v && v[1..] == Join(flags[1..]);
      ThroughFlag(flags[0], v, max);
    }
  }

  /** The flag the automaton is in, as far as it has been read. */
  ghost predicate Begun(state: nat, n: nat, read: string, max: nat) {
    match state
    case 0 => read == ""
    case 1 => 0 < |read| == n && Letter(read[0]) && AllNameChars(read)
    case _ =>
      exists name: string, size: string ::
        read == name + ":" + size && Name(name, max) && AllDigits(size) && (state == 3 <==> |size| > 0)
  }

  /** What is accepted is a list of flags. */
  lemma {:induction false} AcceptedIsList(state: nat, n: nat, read: string, s: string, max: nat)
    returns (flags: seq<string>)
    requires state <= 3 && Begun(state, n, read, max) && Accepts(state, n, s, max)
    ensures |flags| > 0 && FlagList(flags, max) && Join(flags) == read + s
    decreases |s|
  {
    hide Begun, Accepts, Flag;
    AcceptsUnfolds(state, n, s, max);
    if |s| == 0 {
      BegunEnds(state, n, read, max);
      flags := [read];
      assert read + s == read;
    } else if s[0] == '/' {
      BegunEnds(state, n, read, max);
      BegunNone(max);
      var rest := AcceptedIsList(0, 0, "", s[1..], max);
      flags := [read] + rest;
      JoinFirst(read, rest);
      assert "" + s[1..] == s[1..] && "/" + s[1..] == s;
    } else {
      var read' := read + [s[0]];
      assert read + s == read' + s[1..];
      BegunNext(state, n, read, s[0], max);
      if state == 0 {
        flags := AcceptedIsList(1, 1, read', s[1..], max);
      } else if state == 1 && s[0] == ':' {
        flags := AcceptedIsList(2, 0, read', s[1..], max);
      } else if state == 1 {
        flags := AcceptedIsList(1, n + 1, read', s[1..], max);
      } else {
        flags := AcceptedIsList(3, 0, read', s[1..], max);
      }
    }
  }

  lemma BegunNone(max: nat)
    ensures Begun(0, 0, "", max)
  {
  }

  lemma JoinFirst(first: string, rest: seq<string>)
    requires |rest| > 0
    ensures Join([first] + rest) == first + ("/" + Join(rest))
  {
    assert ([first] + rest)[1..] == rest;
  }

  /** One step of the automaton. */
  lemma AcceptsUnfolds(state: nat, n: nat, s: string, max: nat)
    requires state <= 3 && Accepts(state, n, s, max)
    ensures |s| == 0 || s[0] == '/' ==> state == 3 || (state == 1 && n <= max)
    ensures |s| > 0 && s[0] == '/' ==> Accepts(0, 0, s[1..], max)
    ensures |s| > 0 && s[0] != '/' ==>
      if state == 0 then Letter(s[0]) && Accepts(1, 1, s[1..], max)
      else if state == 1 && s[0] == ':' then n <= max && Accepts(2, 0, s[1..], max)
      else if state == 1 then NameChar(s[0]) && Accepts(1, n + 1, s[1..], max)
      else Digit(s[0]) && Accepts(3, 0, s[1..], max)
  {
  }

  /** What has been read is a flag where the text may end. */
  lemma BegunEnds(state: nat, n: nat, read: string, max: nat)
    requires Begun(state, n, read, max) && (state == 3 || (state == 1 && n <= max))
    ensures Flag(read, max)
  {
    if state == 3 {
      var name: string, size: string :|
        read == name + ":" + size && Name(name, max) && AllDigits(size) && (state == 3 <==> |size| > 0);
    }
  }

  lemma BegunNext(state: nat, n: nat, read: string, c: char, max: nat)
    requires state <= 3 && Begun(state, n, read, max)
    ensures state == 0 && Letter(c) ==> Begun(1, 1, read + [c], max)
    ensures state == 1 && NameChar(c) ==> Begun(1, n + 1, read + [c], max)
    ensures state == 1 && c == ':' && n <= max ==> Begun(2, 0, read + [c], max)
    ensures state >= 2 && Digit(c) ==> Begun(3, 0, read + [c], max)
  {
    if state == 1 && c == ':' && n <= max {
      assert read + [c] == read + ":" + "";
    }
    if state >= 2 && Digit(c) {
      var name: string, size: string :|
        read == name + ":" + size && Name(name, max) && AllDigits(size) && (state == 3 <==> |size| > 0);
      assert read + [c] == name + ":" + (size + [c]);
    }
  }

  // ---- the name in front of the equal sign ----

  /** A text splits at its first character that cannot be in a name, and nowhere else. */
  lemma FirstStop(s: string, k: nat, name: string, rest: string, max: nat)
    requires k <= |s| && (forall i :: 0 <= i < k ==> NameChar(s[i])) && (k < |s| ==> !NameChar(s[k]))
    requires Name(name, max) && s == name + "=" + rest
    ensures k == |name| && s[k] == '='
  {
    assert s[|name|] == '=';
    assert forall i :: 0 <= i < |name| ==> s[i] == name[i];
  }

  // ---- the recognizers ----

  /** The characters a name may start with, and how far it goes. */
  method ScanName(s: string) returns (k: nat)
    requires |s| > 0
    ensures 1 <= k <= |s| && (forall i :: 1 <= i < k ==> NameChar(s[i])) && (k < |s| ==> !NameChar(s[k]))
  {
    k := 1;
    while k < |s| && NameChar(s[k])
      invariant 1 <= k <= |s| && forall i :: 1 <= i < k ==> NameChar(s[i])
    {
      k := k + 1;
    }
  }

  /** Whether the text, if there is one, defines a bit field with names of at most maxLength characters. */
  method ValidateBitFieldName(text: Option<string>, maxLength: nat) returns (r: Result<bool>)
    ensures maxLength == 0 ==> r == Err(LogicError)
    ensures maxLength > 0 ==> r == Ok(text.Some? && BitField(text.value, maxLength))
  {
    if maxLength == 0 {
      return Err(LogicError);
    }
    var s := if text.None? then "" else text.value;
    if |s| == 0 {
      NoField(maxLength);
      return Ok(false);
    }
    if !Letter(s[0]) {
      BadStart(s, maxLength);
      return Ok(false);
    }
    var idx := ScanName(s);
    BitFieldAt(s, idx, maxLength);
    if idx == |s| || s[idx] != '=' || idx > maxLength {
      return Ok(false);
    }
    var accepted := ScanFlags(s, idx + 1, maxLength);
    return Ok(accepted);
  }

  /** The characters of a text from `start` on, one after the other through the four states. */
  method ScanFlags(s: string, start: nat, maxLength: nat) returns (accepted: bool)
    requires start <= |s|
    ensures accepted == Accepts(0, 0, s[start..], maxLength)
  {
    hide Accepts, Letter, Digit, NameChar;
    var idx := start;
    var state: nat, nameStart: nat := 0, 0;
    while idx < |s|
      invariant start <= idx <= |s| && state <= 3 && nameStart <= idx
      invariant Accepts(0, 0, s[start..], maxLength) ==
                Accepts(state, Length(state, idx, nameStart), s[idx..], maxLength)
    {
      var c := s[idx];
      AcceptsNext(state, Length(state, idx, nameStart), s, idx, maxLength);
      if state == 0 {
        if !Letter(c) {
          return false;
        }
        nameStart := idx;
        state := 1;
      } else if state == 1 {
        if c == ':' {
          state := 2;
        } else if c == '/' {
          state := 0;
        } else if !NameChar(c) {
          return false;
        }
        if state != 1 && idx - nameStart > maxLength {
          return false;
        }
      } else if c == '/' {
        if state == 2 {
          return false;
        }
        state := 0;
      } else {
        if !Digit(c) {
          return false;
        }
        state := 3;
      }
      idx := idx + 1;
    }
    AcceptsEnd(state, Length(state, idx, nameStart), s, maxLength);
    return !(state == 0 || state == 2 || (state == 1 && idx - nameStart > maxLength));
  }

  /** How much of a name has been read. */
  function Length(state: nat, idx: nat, nameStart: nat): nat {
    if state == 1 && idx >= nameStart then idx - nameStart else 0
  }

  lemma AcceptsEnd(state: nat, n: nat, s: string, max: nat)
    ensures Accepts(state, n, s[|s|..], max) <==> state == 3 || (state == 1 && n <= max)
  {
  }

  lemma AcceptsNext(state: nat, n: nat, s: string, idx: nat, max: nat)
    requires idx < |s| && state <= 3
    ensures Accepts(state, n, s[idx..], max) ==
            var c := s[idx];
            if state == 0 then Letter(c) && Accepts(1, 1, s[idx + 1..], max)
            else if state == 1 then
              if c == ':' then n <= max && Accepts(2, 0, s[idx + 1..], max)
              else if c == '/' then n <= max && Accepts(0, 0, s[idx + 1..], max)
              else NameChar(c) && Accepts(1, n + 1, s[idx + 1..], max)
            else if c == '/' then state == 3 && Accepts(0, 0, s[idx + 1..], max)
            else Digit(c) && Accepts(3, 0, s[idx + 1..], max)
  {
    hide Letter, Digit, NameChar;
    assert s[idx..][1..] == s[idx + 1..] && s[idx..][0] == s[idx];
  }

  /** Whether the text, if there is one, defines a char field with a name of at most maxLength characters. */
  method ValidateCharFieldName(text: Option<string>, maxLength: nat) returns (r: Result<bool>)
    ensures maxLength == 0 ==> r == Err(LogicError)
    ensures maxLength > 0 ==> r == Ok(text.Some? && CharField(text.value, maxLength))
  {
    if maxLength == 0 {
      return Err(LogicError);
    }
    var s := if text.None? then "" else text.value;
    if |s| == 0 {
      NoField(maxLength);
      return Ok(false);
    }
    if !Letter(s[0]) {
      BadStart(s, maxLength);
      return Ok(false);
    }
    var idx := ScanName(s);
    CharFieldAt(s, idx, maxLength);
    if idx == |s| || s[idx] != '=' || idx > maxLength || idx + 1 == |s| {
      return Ok(false);
    }
    ghost var start := idx + 1;
    idx := idx + 1;
    while idx < |s|
      invariant start <= idx <= |s| && forall i :: start <= i < idx ==> Digit(s[i])
    {
      if !Digit(s[idx]) {
        return Ok(false);
      }
      idx := idx + 1;
    }
    return Ok(true);
  }

  lemma NoField(max: nat)
    ensures !BitField("", max) && !CharField("", max)
  {
  }

  lemma BadStart(s: string, max: nat)
    requires |s| > 0 && !Letter(s[0])
    ensures !BitField(s, max) && !CharField(s, max)
  {
    forall name: string, rest: string | Name(name, max) ensures s != name + "=" + rest {
      assert (name + "=" + rest)[0] == name[0];
    }
  }

  lemma BadName(s: string, k: nat, max: nat)
    requires 1 <= k <= |s| && Letter(s[0]) && (forall i :: 1 <= i < k ==> NameChar(s[i]))
      && (k < |s| ==> !NameChar(s[k]))
    requires k == |s| || s[k] != '=' || k > max
    ensures !BitField(s, max) && !CharField(s, max)
  {
    forall name: string, rest: string | Name(name, max) && s == name + "=" + rest ensures false {
      FirstStop(s, k, name, rest, max);
    }
  }

  lemma BitFieldRest(s: string, k: nat, max: nat)
    requires 1 <= k < |s| && Letter(s[0]) && (forall i :: 1 <= i < k ==> NameChar(s[i])) && s[k] == '=' && k <= max
    ensures BitField(s, max) <==> Accepts(0, 0, s[k + 1..], max)
  {
    hide Accepts, FlagList, Join, Name, BitField;
    if BitField(s, max) {
      FieldAccepted(s, k, max);
    }
    if Accepts(0, 0, s[k + 1..], max) {
      AcceptedField(s, k, max);
    }
  }

  lemma FieldAccepted(s: string, k: nat, max: nat)
    requires 1 <= k < |s| && Letter(s[0]) && (forall i :: 1 <= i < k ==> NameChar(s[i])) && s[k] == '=' && k <= max
    requires BitField(s, max)
    ensures Accepts(0, 0, s[k + 1..], max)
  {
    hide Accepts, FlagList, Join, Name;
    var name: string, flags: seq<string> :|
      Name(name, max) && FlagList(flags, max) && |flags| > 0 && s == name + "=" + Join(flags);
    FirstStop(s, k, name, Join(flags), max);
    assert s[k + 1..] == Join(flags);
    ListAccepted(flags, max);
  }

  lemma AcceptedField(s: string, k: nat, max: nat)
    requires 1 <= k < |s| && Letter(s[0]) && (forall i :: 1 <= i < k ==> NameChar(s[i])) && s[k] == '=' && k <= max
    requires Accepts(0, 0, s[k + 1..], max)
    ensures BitField(s, max)
  {
    hide Accepts, FlagList, Join, Begun;
    BegunNone(max);
    var flags := AcceptedIsList(0, 0, "", s[k + 1..], max);
    assert "" + s[k + 1..] == s[k + 1..];
    assert Name(s[..k], max);
    assert s == s[..k] + "=" + s[k + 1..];
  }

  lemma CharFieldRest(s: string, k: nat, max: nat)
    requires 1 <= k < |s| && Letter(s[0]) && (forall i :: 1 <= i < k ==> NameChar(s[i])) && s[k] == '=' && k <= max
    ensures CharField(s, max) <==> k + 1 < |s| && AllDigits(s[k + 1..])
  {
    if CharField(s, max) {
      var name: string, size: string :| Name(name, max) && |size| > 0 && AllDigits(size) && s == name + "=" + size;
      FirstStop(s, k, name, size, max);
      assert s[k + 1..] == size;
    }
    if k + 1 < |s| && AllDigits(s[k + 1..]) {
      assert s == s[..k] + "=" + s[k + 1..] && Name(s[..k], max);
    }
  }

  /** Where the first character that cannot be in a name is found decides about a bit field. */
  lemma BitFieldAt(s: string, k: nat, max: nat)
    requires 1 <= k <= |s| && Letter(s[0]) && (forall i :: 1 <= i < k ==> NameChar(s[i]))
      && (k < |s| ==> !NameChar(s[k]))
    ensures BitField(s, max) <==> k < |s| && s[k] == '=' && k <= max && Accepts(0, 0, s[k + 1..], max)
  {
    hide BitField, Accepts;
    if k < |s| && s[k] == '=' && k <= max {
      BitFieldRest(s, k, max);
    } else {
      BadName(s, k, max);
    }
  }

  lemma CharFieldAt(s: string, k: nat, max: nat)
    requires 1 <= k <= |s| && Letter(s[0]) && (forall i :: 1 <= i < k ==> NameChar(s[i]))
      && (k < |s| ==> !NameChar(s[k]))
    ensures CharField(s, max) <==> k + 1 < |s| && s[k] == '=' && k <= max && AllDigits(s[k + 1..])
  {
    hide CharField, AllDigits;
    if k < |s| && s[k] == '=' && k <= max {
      CharFieldRest(s, k, max);
    } else {
      BadName(s, k, max);
    }
  }
}
