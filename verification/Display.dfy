/**
 * Display names (_xcb_parse_display in src/xcb_util.c): an optional protocol
 * and a slash, a host, a colon, a display number, and an optional dot and
 * screen number.
 */
module Display {
  import opened Wrappers
  import opened Sequence

  /** The memory the results go to. */
  class Slots {
    var protocol: Option<string>
    var host: Option<string>
    var display: int
    var screen: int

    constructor (protocol: Option<string>, host: Option<string>, display: int, screen: int)
      ensures this.protocol == protocol && this.host == host && this.display == display && this.screen == screen
    {
      this.protocol, this.host, this.display, this.screen := protocol, host, display, screen;
    }
  }

  datatype Parts = Parts(protocol: Option<string>, host: string, display: int, screen: int)

  // ----- strtoul -----

  predicate IsSpace(c: char) { c == ' ' || 9 <= c as int <= 13 }

  predicate IsDigit(c: char) { '0' <= c <= '9' }

  predicate IsSign(c: char) { c == '+' || c == '-' }

  function DigitValue(c: char): nat
    requires IsDigit(c)
  {
    c as int - '0' as int
  }

  /** The length of the leading run of spaces. */
  function Spaces(s: string): (n: nat)
    ensures n <= |s|
  {
    if s != "" && IsSpace(s[0]) then 1 + Spaces(s[1..]) else 0
  }

  function Digits(s: string): (n: nat)
    ensures n <= |s| && forall i :: 0 <= i < n ==> IsDigit(s[i])
    ensures n < |s| ==> !IsDigit(s[n])
  {
    if s != "" && IsDigit(s[0]) then 1 + Digits(s[1..]) else 0
  }

  function Value(digits: string): nat
    requires forall c :: c in digits ==> IsDigit(c)
  {
    if digits == "" then 0
    else 10 * Value(digits[..|digits| - 1]) + DigitValue(digits[|digits| - 1])
  }

  /** Where the digits of a numeral begin. */
  function Start(s: string): (n: nat)
    ensures n <= |s|
  {
    var n := Spaces(s);
    if n < |s| && IsSign(s[n]) then n + 1 else n
  }

  /** How many characters strtoul(s, &end, 10) takes: none if there is no number. */
  function End(s: string): (n: nat)
    ensures n <= |s|
  {
    if Digits(s[Start(s)..]) == 0 then 0 else Start(s) + Digits(s[Start(s)..])
  }

  predicate Negative(s: string) {
    Spaces(s) < |s| && s[Spaces(s)] == '-'
  }

  /** A value as a 64-bit unsigned long: saturating, and negated after a minus. */
  function AsULong(v: nat, negative: bool): nat {
    if v >= TWO64 then TWO64 - 1 else if negative then (TWO64 - v) % TWO64 else v
  }

  /** The result of strtoul. */
  function Result(s: string): nat {
    var digits := s[Start(s)..];
    AsULong(Value(digits[..Digits(digits)]), Negative(s))
  }

  /** The result stored in an int. */
  function ToInt(s: string): int {
    AsInt32(Result(s))
  }

  method StrToUl(s: string) returns (value: nat, end: nat)
    ensures end == End(s)
    ensures value == if end == 0 then 0 else Result(s)
  {
    var from := SkipSpaces(s);
    var negative := false;
    if from < |s| && IsSign(s[from]) {
      negative := s[from] == '-';
      from := from + 1;
    }
    var n, overflow;
    value, n, overflow := ReadDigits(s[from..]);
    if n == 0 {
      return 0, 0;
    }
    end := from + n;
    if overflow {
      value := TWO64 - 1;
    } else if negative {
      value := (TWO64 - value) % TWO64;
    }
  }

  method SkipSpaces(s: string) returns (n: nat)
    ensures n == Spaces(s)
  {
    n := 0;
    while n < |s| && IsSpace(s[n])
      invariant n <= |s| && Spaces(s) == n + Spaces(s[n..])
    {
      n := n + 1;
    }
  }

  /** Add up digits until there is none or the value no longer fits. */
  method ReadDigits(s: string) returns (value: nat, n: nat, overflow: bool)
    ensures n == Digits(s)
    ensures overflow == (Value(s[..n]) >= TWO64)
    ensures !overflow ==> value == Value(s[..n])
  {
    value, n, overflow := 0, 0, false;
    while n < |s| && IsDigit(s[n])
      invariant n <= |s| && Digits(s) == n + Digits(s[n..])
      invariant forall c :: c in s[..n] ==> IsDigit(c)
      invariant overflow == (Value(s[..n]) >= TWO64)
      invariant !overflow ==> value == Value(s[..n])
    {
      assert s[..n + 1][..n] == s[..n];
      if !overflow {
        value := 10 * value + DigitValue(s[n]);
        overflow := value >= TWO64;
      }
      n := n + 1;
    }
  }

  /** strrchr: the last place of the character, if any. */
  method StrRChr(s: string, c: char) returns (at: Option<nat>)
    ensures at == LastOf(s, c)
  {
    at := None;
    for i := 0 to |s|
      invariant at == LastOf(s[..i], c)
    {
      assert s[..i + 1][..i] == s[..i];
      if s[i] == c {
        at := Some(i);
      }
    }
    assert s[..|s|] == s;
  }

  function LastOf(s: string, c: char): (at: Option<nat>)
    ensures at.Some? ==> at.value < |s| && s[at.value] == c && c !in s[at.value + 1..]
    ensures at.None? ==> c !in s
  {
    if s == "" then None
    else if s[|s| - 1] == c then Some(|s| - 1)
    else
      assert s == s[..|s| - 1] + [s[|s| - 1]];
      LastOf(s[..|s| - 1], c)
  }

  // ----- the parser -----

  function ProtocolOf(name: string): Option<string> {
    match LastOf(name, '/') case Some(i) => Some(name[..i]) case None => None
  }

  function AfterSlash(name: string): string {
    match LastOf(name, '/') case Some(i) => name[i + 1..] case None => name
  }

  /** The display and screen numbers behind the colon. */
  function Numbers(s: string): Option<(int, int)> {
    var dot := End(s);
    if dot == 0 then None
    else if dot == |s| then Some((ToInt(s), 0))
    else if s[dot] != '.' then None
    else
      var t := s[dot + 1..];
      if End(t) == 0 || End(t) != |t| then None else Some((ToInt(s), ToInt(t)))
  }

  /** Host, display and screen. */
  function Address(s: string): Option<(string, int, int)> {
    match LastOf(s, ':')
    case None => None
    case Some(colon) =>
      match Numbers(s[colon + 1..])
      case None => None
      case Some((display, screen)) => Some((s[..colon], display, screen))
  }

  function Parse(name: string): Option<Parts> {
    match Address(AfterSlash(name))
    case None => None
    case Some((host, display, screen)) => Some(Parts(ProtocolOf(name), host, display, screen))
  }

  /**
   * _xcb_parse_display; the pointers to the protocol and to the screen may be
   * null. The DISPLAY variable counts only if no name is given or an empty one.
   * On failure only the protocol is cleared, and not even that without a name.
   */
  method ParseDisplay(name: Option<string>, env: Option<string>, out: Slots, wantsProtocol: bool, wantsScreen: bool) returns (ok: bool)
    modifies out
    ensures (name.Some? && name.value != "") || env.Some? ==>
      match Parse(if name.Some? && name.value != "" then name.value else env.value)
      case Some(parts) =>
        && ok && out.host == Some(parts.host) && out.display == parts.display
        && out.protocol == (if wantsProtocol then parts.protocol else old(out.protocol))
        && out.screen == (if wantsScreen then parts.screen else old(out.screen))
      case None =>
        && !ok && out.host == old(out.host) && out.display == old(out.display) && out.screen == old(out.screen)
        && out.protocol == (if wantsProtocol then None else old(out.protocol))
    ensures !(name.Some? && name.value != "") && env.None? ==> !ok && unchanged(out)
  {
    var chosen := if name.None? || name.value == "" then env else name;
    if chosen.None? {
      return false;
    }
    var text := SplitProtocol(chosen.value, out, wantsProtocol);
    var parts := ParseAddress(text);
    if parts.None? {
      if wantsProtocol {
        out.protocol := None;
      }
      return false;
    }
    Store(out, parts.value.0, parts.value.1, parts.value.2, wantsScreen);
    ok := true;
  }

  /** The one place where host, display and screen are written. */
  method Store(out: Slots, host: string, display: int, screen: int, wantsScreen: bool)
    modifies out`host, out`display, out`screen
    ensures out.host == Some(host) && out.display == display
    ensures out.screen == if wantsScreen then screen else old(out.screen)
  {
    out.host := Some(host);
    out.display := display;
    if wantsScreen {
      out.screen := screen;
    }
  }

  /** Up to the last slash is the protocol. */
  method SplitProtocol(name: string, out: Slots, wantsProtocol: bool) returns (text: string)
    modifies out`protocol
    ensures text == AfterSlash(name)
    ensures out.protocol == if wantsProtocol then ProtocolOf(name) else old(out.protocol)
  {
    text := name;
    var slash := StrRChr(name, '/');
    if slash.Some? {
      if wantsProtocol {
        out.protocol := Some(name[..slash.value]);
      }
      text := name[slash.value + 1..];
    } else if wantsProtocol {
      out.protocol := None;
    }
  }

  /** The host ends at the last colon; nothing is stored yet. */
  method ParseAddress(text: string) returns (parts: Option<(string, int, int)>)
    ensures parts == Address(text)
  {
    var colon := StrRChr(text, ':');
    if colon.None? {
      return None;
    }
    var numbers := ParseNumbers(text[colon.value + 1..]);
    if numbers.None? {
      return None;
    }
    parts := Some((text[..colon.value], numbers.value.0, numbers.value.1));
  }

  method ParseNumbers(s: string) returns (numbers: Option<(int, int)>)
    ensures numbers == Numbers(s)
  {
    var display, dot := StrToUl(s);
    if dot == 0 {
      return None;
    }
    var screen := 0;
    if dot < |s| {
      if s[dot] != '.' {
        return None;
      }
      var t, end := s[dot + 1..], 0;
      screen, end := StrToUl(t);
      if end == 0 || end != |t| {
        return None;
      }
    }
    numbers := Some((AsInt32(display), AsInt32(screen)));
  }

  // ----- which names parse, and as what -----

  /** Spaces, a sign perhaps, and digits: what strtoul takes whole. */
  predicate Numeral(s: string) {
    s != "" && End(s) == |s|
  }

  function Lead(protocol: Option<string>): string {
    match protocol case Some(p) => p + "/" case None => ""
  }

  function Tail(screen: Option<string>): string {
    match screen case Some(s) => "." + s case None => ""
  }

  /** The numerals t and u stand for the two numbers, the second being 0 when it is left out. */
  predicate Stand(t: string, u: Option<string>, display: int, screen: int) {
    && Numeral(t) && ToInt(t) == display
    && match u case Some(v) => Numeral(v) && ToInt(v) == screen case None => screen == 0
  }

  lemma {:induction false} SpacesTaken(s: string, rest: string)
    requires Spaces(s) < |s|
    ensures Spaces(s + rest) == Spaces(s)
  {
    assert (s + rest)[0] == s[0];
    if IsSpace(s[0]) {
      SpacesTaken(s[1..], rest);
      assert (s + rest)[1..] == s[1..] + rest;
    }
  }

  lemma {:induction false} DigitsTaken(s: string, rest: string)
    requires Digits(s) == |s| && (rest == "" || !IsDigit(rest[0]))
    ensures Digits(s + rest) == |s|
  {
    if s != "" {
      DigitsTaken(s[1..], rest);
      assert (s + rest)[1..] == s[1..] + rest;
    } else {
      assert s + rest == rest;
    }
  }

  lemma {:induction false} DigitsPrefix(s: string, n: nat)
    requires n <= Digits(s)
    ensures Digits(s[..n]) == n
  {
    if n > 0 {
      DigitsPrefix(s[1..], n - 1);
      assert s[..n][1..] == s[1..][..n - 1];
    }
  }

  /** A numeral is read to its end and no further. */
  lemma NumeralTaken(t: string, rest: string)
    requires Numeral(t) && (rest == "" || !IsDigit(rest[0]))
    ensures End(t + rest) == |t| && ToInt(t + rest) == ToInt(t)
  {
    var s := t + rest;
    SpacesTaken(t, rest);
    assert s[Spaces(t)] == t[Spaces(t)];
    var from := Start(t);
    assert Start(s) == from;
    assert s[from..] == t[from..] + rest;
    DigitsTaken(t[from..], rest);
    assert s[from..][..Digits(s[from..])] == t[from..][..Digits(t[from..])];
  }

  /** What strtoul takes is a numeral with the same value. */
  lemma TakenIsNumeral(s: string)
    requires End(s) > 0
    ensures Numeral(s[..End(s)]) && ToInt(s[..End(s)]) == ToInt(s)
  {
    var from, n := Start(s), Digits(s[Start(s)..]);
    var t := s[..from + n];
    SpacesKept(s, from + n);
    assert t[from..] == s[from..][..n];
    DigitsPrefix(s[from..], n);
    assert t[from..][..n] == s[from..][..n];
  }

  lemma {:induction false} SpacesKept(s: string, n: nat)
    requires Spaces(s) < n <= |s|
    ensures Spaces(s[..n]) == Spaces(s) && s[..n][Spaces(s)] == s[Spaces(s)]
  {
    if IsSpace(s[0]) {
      SpacesKept(s[1..], n - 1);
      assert s[..n][1..] == s[1..][..n - 1];
    }
  }

  lemma {:induction false} SpacesAre(s: string, i: nat)
    requires i < Spaces(s)
    ensures IsSpace(s[i])
  {
    if i > 0 {
      SpacesAre(s[1..], i - 1);
    }
  }

  lemma NumeralChars(t: string, c: char)
    requires Numeral(t) && c in t
    ensures IsSpace(c) || IsSign(c) || IsDigit(c)
  {
    var i :| 0 <= i < |t| && t[i] == c;
    if i < Spaces(t) {
      SpacesAre(t, i);
    } else if i >= Start(t) {
      assert t[Start(t)..][i - Start(t)] == c;
    }
  }

  /** What is before and behind a character. */
  lemma Around(a: string, c: char, b: string)
    ensures var s := a + ([c] + b);
      s[..|a|] == a && s[|a|] == c && s[|a| + 1..] == b && s == a + [c] + b
  {
  }

  lemma CutAt(s: string, i: nat)
    requires i < |s|
    ensures s == s[..i] + [s[i]] + s[i + 1..]
  {
  }

  lemma NumbersSound(s: string, display: int, screen: int) returns (t: string, u: Option<string>)
    requires Numbers(s) == Some((display, screen))
    ensures s == t + Tail(u) && Stand(t, u, display, screen)
  {
    var dot := End(s);
    t := s[..dot];
    TakenIsNumeral(s);
    if dot == |s| {
      u := None;
    } else {
      u := Some(s[dot + 1..]);
      CutAt(s, dot);
      Around(t, '.', u.value);
    }
  }

  lemma NumbersComplete(t: string, u: Option<string>, display: int, screen: int)
    requires Stand(t, u, display, screen)
    ensures Numbers(t + Tail(u)) == Some((display, screen))
  {
    var s := t + Tail(u);
    NumeralTaken(t, Tail(u));
    match u
    case None => assert s == t;
    case Some(v) => Around(t, '.', v);
  }

  lemma LastOfIs(a: string, c: char, b: string)
    requires c !in b
    ensures LastOf(a + [c] + b, c) == Some(|a|)
  {
    var s := a + [c] + b;
    assert s[|a|] == c;
    assert s[|a| + 1..] == b;
  }

  /** The name spells the parts, with t and u for the numbers. */
  predicate Spells(name: string, parts: Parts, t: string, u: Option<string>) {
    && name == Lead(parts.protocol) + (parts.host + ":" + (t + Tail(u)))
    && '/' !in parts.host
    && Stand(t, u, parts.display, parts.screen)
  }

  /** Neither a colon nor a slash is among the numbers. */
  lemma PlainNumbers(t: string, u: Option<string>, display: int, screen: int)
    requires Stand(t, u, display, screen)
    ensures ':' !in t + Tail(u) && '/' !in t + Tail(u)
  {
    forall c | c in t + Tail(u) ensures c != ':' && c != '/' {
      if c in t {
        NumeralChars(t, c);
      } else if c in Tail(u) && c != '.' {
        NumeralChars(u.value, c);
      }
    }
  }

  lemma AddressSound(s: string, host: string, display: int, screen: int) returns (t: string, u: Option<string>)
    requires Address(s) == Some((host, display, screen))
    ensures s == host + ":" + (t + Tail(u)) && Stand(t, u, display, screen)
  {
    var colon := LastOf(s, ':').value;
    CutAt(s, colon);
    t, u := NumbersSound(s[colon + 1..], display, screen);
  }

  lemma SlashJoins(name: string)
    ensures name == Lead(ProtocolOf(name)) + AfterSlash(name) && '/' !in AfterSlash(name)
  {
    match LastOf(name, '/')
    case Some(i) => assert name == name[..i] + "/" + name[i + 1..];
    case None => assert [] + name == name;
  }

  lemma ParseSound(name: string, parts: Parts) returns (t: string, u: Option<string>)
    requires Parse(name) == Some(parts)
    ensures Spells(name, parts, t, u)
  {
    var rest := AfterSlash(name);
    SlashJoins(name);
    t, u := AddressSound(rest, parts.host, parts.display, parts.screen);
    forall c | c in parts.host ensures c in rest {
    }
  }

  lemma AddressComplete(host: string, t: string, u: Option<string>, display: int, screen: int)
    requires Stand(t, u, display, screen)
    ensures Address(host + ":" + (t + Tail(u))) == Some((host, display, screen))
  {
    var numbers := t + Tail(u);
    var s := host + ":" + numbers;
    PlainNumbers(t, u, display, screen);
    LastOfIs(host, ':', numbers);
    Around(host, ':', numbers);
    NumbersComplete(t, u, display, screen);
  }

  lemma ParseComplete(name: string, parts: Parts, t: string, u: Option<string>)
    requires Spells(name, parts, t, u)
    ensures Parse(name) == Some(parts)
  {
    var rest := parts.host + ":" + (t + Tail(u));
    PlainNumbers(t, u, parts.display, parts.screen);
    assert '/' !in rest;
    SlashSplits(parts.protocol, rest);
    AddressComplete(parts.host, t, u, parts.display, parts.screen);
  }

  lemma SlashSplits(protocol: Option<string>, rest: string)
    requires '/' !in rest
    ensures ProtocolOf(Lead(protocol) + rest) == protocol && AfterSlash(Lead(protocol) + rest) == rest
  {
    var name := Lead(protocol) + rest;
    match protocol
    case Some(p) =>
      assert name == p + ['/'] + rest;
      LastOfIs(p, '/', rest);
      assert name[..|p|] == p && name[|p| + 1..] == rest;
    case None => assert name == rest;
  }

  /** A name parses as some parts exactly if it spells them. */
  lemma ParseExactly(name: string, parts: Parts)
    ensures Parse(name) == Some(parts) <==> exists t, u :: Spells(name, parts, t, u)
  {
    if Parse(name) == Some(parts) {
      var t, u := ParseSound(name, parts);
    }
    forall t, u | Spells(name, parts, t, u) ensures Parse(name) == Some(parts) {
      ParseComplete(name, parts, t, u);
    }
  }

  // ----- numerals -----

  function Decimal(n: nat): (s: string)
    ensures s != ""
  {
    (if n < 10 then "" else Decimal(n / 10)) + [(n % 10 + '0' as int) as char]
  }

  lemma {:induction false} DecimalDigits(n: nat)
    ensures forall c :: c in Decimal(n) ==> IsDigit(c)
    ensures Value(Decimal(n)) == n
  {
    var s := Decimal(n);
    if n >= 10 {
      DecimalDigits(n / 10);
      assert s[..|s| - 1] == Decimal(n / 10);
    } else {
      assert s[..|s| - 1] == "";
    }
  }

  lemma {:induction false} AllDigits(s: string)
    requires forall c :: c in s ==> IsDigit(c)
    ensures Digits(s) == |s|
  {
    if s != "" {
      AllDigits(s[1..]);
    }
  }

  lemma {:induction false} SpacesLead(spaces: string, t: string)
    requires forall c :: c in spaces ==> c == ' ' || 9 <= c as int <= 13
    ensures Spaces(spaces + t) == |spaces| + Spaces(t)
  {
    if spaces == "" {
      assert spaces + t == t;
    } else {
      assert forall c :: c in spaces[1..] ==> c in spaces;
      assert spaces[0] in spaces && (spaces + t)[0] == spaces[0] && (spaces + t)[1..] == spaces[1..] + t;
      SpacesLead(spaces[1..], t);
    }
  }

  lemma StartIs(spaces: string, sign: string, t: string)
    requires forall c :: c in spaces ==> c == ' ' || 9 <= c as int <= 13
    requires sign == "+" || sign == "-" || (sign == "" && (t == "" || !(IsSpace(t[0]) || t[0] == '+' || t[0] == '-')))
    ensures var s := spaces + (sign + t);
      Start(s) == |spaces| + |sign| && s[Start(s)..] == t && (Negative(s) <==> sign == "-")
  {
    var s := spaces + (sign + t);
    SpacesLead(spaces, sign + t);
    assert sign == "" ==> sign + t == t;
    assert Spaces(sign + t) == 0;
    assert s[|spaces|..] == sign + t;
    assert |spaces| < |s| ==> s[|spaces|] == (sign + t)[0];
    assert s[|spaces| + |sign|..] == t;
  }

  /**
   * strtoul skips spaces and reads a sign and digits up to the first character
   * that is none; what does not fit saturates, and a minus negates in 64 bits.
   */
  lemma StrToUlReads(spaces: string, sign: string, n: nat, rest: string)
    requires forall c :: c in spaces ==> c == ' ' || 9 <= c as int <= 13
    requires sign == "" || sign == "+" || sign == "-"
    requires rest == "" || !('0' <= rest[0] <= '9')
    ensures var s := spaces + (sign + (Decimal(n) + rest));
      && End(s) == |s| - |rest|
      && Result(s) == (if n >= TWO64 then TWO64 - 1 else if sign == "-" && n > 0 then TWO64 - n else n)
      && (n < TWO31 ==> ToInt(s) == (if sign == "-" then 0 - n else n))
  {
    NumeralRead(spaces, sign, n, rest);
    AsULongIs(n, sign == "-");
  }

  lemma NumeralRead(spaces: string, sign: string, n: nat, rest: string)
    requires forall c :: c in spaces ==> c == ' ' || 9 <= c as int <= 13
    requires sign == "" || sign == "+" || sign == "-"
    requires rest == "" || !IsDigit(rest[0])
    ensures var s := spaces + (sign + (Decimal(n) + rest));
      End(s) == |s| - |rest| && Result(s) == AsULong(n, sign == "-")
  {
    DigitsFirst(n, rest);
    DigitsAt(spaces, sign, Decimal(n) + rest, |Decimal(n)|);
  }

  lemma DigitsAt(spaces: string, sign: string, t: string, n: nat)
    requires forall c :: c in spaces ==> c == ' ' || 9 <= c as int <= 13
    requires sign == "" || sign == "+" || sign == "-"
    requires t != "" && IsDigit(t[0]) && Digits(t) == n > 0
    ensures var s := spaces + (sign + t);
      End(s) == |spaces| + |sign| + n && Result(s) == AsULong(Value(t[..n]), sign == "-")
  {
    StartIs(spaces, sign, t);
  }

  lemma AsULongIs(n: nat, negative: bool)
    ensures AsULong(n, negative) == if n >= TWO64 then TWO64 - 1 else if negative && n > 0 then TWO64 - n else n
    ensures n < TWO31 ==> AsInt32(AsULong(n, negative)) == (if negative then 0 - n else n)
  {
    if n < TWO31 {
      NegatedAsInt(n);
    }
  }

  lemma DigitsFirst(n: nat, rest: string)
    requires rest == "" || !IsDigit(rest[0])
    ensures var t := Decimal(n) + rest;
      && t != "" && IsDigit(t[0])
      && Digits(t) == |Decimal(n)| > 0 && Value(t[..Digits(t)]) == n
  {
    var digits := Decimal(n);
    DecimalDigits(n);
    AllDigits(digits);
    assert digits[0] in digits;
    DigitsTaken(digits, rest);
    assert (digits + rest)[..|digits|] == digits;
  }

  lemma NegatedAsInt(n: nat)
    requires n < TWO31
    ensures AsInt32(n) == n && AsInt32((TWO64 - n) % TWO64) == 0 - n
  {
    AsInt32Window(n);
    AsInt32Window(0 - n);
    AsInt32Shift(TWO64 - n, 0 - n, -TWO32);
  }

  /** Without a digit behind spaces and sign it takes nothing. */
  lemma NothingToRead(spaces: string, sign: string, rest: string)
    requires forall c :: c in spaces ==> c == ' ' || 9 <= c as int <= 13
    requires sign == "+" || sign == "-" || (sign == "" && (rest == "" || !(IsSpace(rest[0]) || rest[0] == '+' || rest[0] == '-')))
    requires rest == "" || !('0' <= rest[0] <= '9')
    ensures End(spaces + (sign + rest)) == 0
  {
    StartIs(spaces, sign, rest);
  }

  // ----- round trip -----

  /** A printed number is read back as itself exactly if it fits a 32-bit int. */
  lemma DecimalReads(n: nat)
    ensures Numeral(Decimal(n))
    ensures ToInt(Decimal(n)) == n <==> n < TWO31
  {
    var s := Decimal(n);
    DecimalDigits(n);
    AllDigits(s);
    assert s[0] in s;
    assert IsDigit(s[0]) && !IsSpace(s[0]) && !IsSign(s[0]);
    assert Spaces(s) == 0 && Start(s) == 0;
    assert s[0..] == s && s[..|s|] == s;
    assert Result(s) == AsULong(n, false);
    AsInt32Window(n);
  }

  /** A display name printed with or without its screen number. */
  function Print(protocol: Option<string>, host: string, display: nat, screen: Option<nat>): string {
    Lead(protocol) + (host + ":" + (Decimal(display) + Tail(match screen case Some(n) => Some(Decimal(n)) case None => None)))
  }

  /** The parts that were printed; the screen is 0 if it was left out. */
  function Meant(protocol: Option<string>, host: string, display: nat, screen: Option<nat>): Parts {
    Parts(protocol, host, display, match screen case Some(n) => n case None => 0)
  }

  /**
   * Printing and parsing gives back all four parts, and 0 for a screen that was
   * left out, exactly if the host has no slash and the numbers fit an int.
   */
  lemma RoundTripExactly(protocol: Option<string>, host: string, display: nat, screen: Option<nat>)
    ensures Parse(Print(protocol, host, display, screen)) == Some(Meant(protocol, host, display, screen))
      <==> '/' !in host && display < TWO31 && (screen.Some? ==> screen.value < TWO31)
  {
    var name, parts := Print(protocol, host, display, screen), Meant(protocol, host, display, screen);
    var d, u := Decimal(display), match screen case Some(n) => Some(Decimal(n)) case None => None;
    DecimalReads(display);
    if screen.Some? {
      DecimalReads(screen.value);
    }
    if '/' !in host {
      var read := Parts(protocol, host, ToInt(d), if u.Some? then ToInt(u.value) else 0);
      ParseComplete(name, read, d, u);
    } else if Parse(name) == Some(parts) {
      var t, v := ParseSound(name, parts);
    }
  }
}
