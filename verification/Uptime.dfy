/** Uptimes as text: the printer of checks/multicast.py (format_uptime_hms) and the parser of
collectors/isis.py (_UPTIME_TEXT and the text branch of _seconds_attr). */
module Uptime {
  import opened Wrappers

  // ----- Numbers -----

  predicate Digit(c: char) {
    '0' <= c <= '9'
  }

  predicate Space(c: char) {
    c in {' ', '\t', '\n', '\r', '\U{0B}', '\U{0C}'}
  }

  predicate Number(s: string) {
    s != "" && forall i | 0 <= i < |s| :: Digit(s[i])
  }

  predicate Blank(s: string) {
    forall i | 0 <= i < |s| :: Space(s[i])
  }

  function DigitOf(n: nat): char
    requires n < 10
  {
    '0' + n as char
  }

  function Decimal(n: nat): (s: string)
    ensures Number(s)
  {
    if n < 10 then [DigitOf(n)] else Decimal(n / 10) + [DigitOf(n % 10)]
  }

  function Weight(c: char): nat {
    if Digit(c) then c as int - '0' as int else 0
  }

  /** The number read so far is `acc`. */
  function ValueFrom(acc: nat, s: string): nat
    decreases |s|
  {
    if s == "" then acc else ValueFrom(10 * acc + Weight(s[0]), s[1..])
  }

  function ValueOf(s: string): nat {
    ValueFrom(0, s)
  }

  lemma {:induction false} ValueSnoc(acc: nat, s: string, c: char)
    ensures ValueFrom(acc, s + [c]) == 10 * ValueFrom(acc, s) + Weight(c)
    decreases |s|
  {
    if s == "" {
      assert (s + [c])[1..] == "";
    } else {
      assert (s + [c])[1..] == s[1..] + [c];
      ValueSnoc(10 * acc + Weight(s[0]), s[1..], c);
    }
  }

  lemma {:induction false} DecimalComesBack(n: nat)
    ensures ValueOf(Decimal(n)) == n
  {
    if n >= 10 {
      DecimalComesBack(n / 10);
      ValueSnoc(0, Decimal(n / 10), DigitOf(n % 10));
    } else {
      ValueSnoc(0, "", DigitOf(n));
      assert "" + [DigitOf(n)] == Decimal(n);
    }
  }

  // ----- Printing -----

  /** Two digits at least, as the format `02d`. */
  function Padded(n: nat): string {
    if n < 10 then ['0', DigitOf(n)] else Decimal(n)
  }

  lemma PaddedComesBack(n: nat)
    ensures Number(Padded(n)) && ValueOf(Padded(n)) == n
  {
    if n < 10 {
      ValueSnoc(0, "", '0');
      ValueSnoc(0, "0", DigitOf(n));
      assert "" + ['0'] == "0" && "0" + [DigitOf(n)] == Padded(n);
    } else {
      DecimalComesBack(n);
    }
  }

  function Signed(n: int): string {
    if n < 0 then "-" + Decimal(-n) else Decimal(n)
  }

  function Clock(rest: nat): string {
    Padded(rest / 3600) + [':'] + (Padded(rest % 3600 / 60) + [':'] + Padded(rest % 60))
  }

  /** Division rounds down, so a negative uptime has a negative number of days. */
  function Format(seconds: Option<int>): string {
    if seconds.None? then "-"
    else
      var days, rest := seconds.value / 86400, seconds.value % 86400;
      if days != 0 then Signed(days) + ['d'] + ([' '] + Clock(rest)) else Clock(rest)
  }

  // ----- Parsing -----

  function Skip(s: string): string {
    if s != "" && Space(s[0]) then Skip(s[1..]) else s
  }

  predicate DigitAhead(s: string) {
    s != "" && Digit(s[0])
  }

  /** The digits at the front added to the number read so far, and what follows them. */
  function Read(acc: nat, s: string): (nat, string)
    decreases |s|
  {
    if DigitAhead(s) then Read(10 * acc + Weight(s[0]), s[1..]) else (acc, s)
  }

  /** A leading number followed by `c`, and the text after them. */
  function Before(c: char, s: string): Option<(nat, string)> {
    var r := Read(0, s);
    if DigitAhead(s) && r.1 != "" && r.1[0] == c then Some((r.0, r.1[1..])) else None
  }

  /** An optional number with the unit `c`, 0 when there is none. */
  function Unit(c: char, s: string): (nat, string) {
    var a := Skip(s);
    var found := Before(c, a);
    if found.Some? then found.value else (0, a)
  }

  /** A number with nothing but blanks after it. */
  function Last(s: string): Option<nat> {
    var r := Read(0, s);
    if DigitAhead(s) && Skip(r.1) == "" then Some(r.0) else None
  }

  function ParseClock(s: string): Option<nat> {
    var h := Before(':', s);
    if h.None? then None
    else
      var m := Before(':', h.value.1);
      if m.None? then None
      else
        var n := Last(m.value.1);
        if n.None? then None else Some((h.value.0 * 60 + m.value.0) * 60 + n.value)
  }

  function Parse(text: string): Option<nat> {
    var w := Unit('w', text);
    var d := Unit('d', w.1);
    var clock := ParseClock(Skip(d.1));
    if clock.None? then None else Some((w.0 * 7 + d.0) * 86400 + clock.value)
  }

  // ----- The grammar -----

  /** An optional number with its unit in front of a text. */
  function With(o: Option<string>, unit: char, rest: string): string {
    if o.Some? then o.value + [unit] + rest else rest
  }

  predicate OptionalNumber(o: Option<string>) {
    o.Some? ==> Number(o.value)
  }

  function OptionalValue(o: Option<string>): nat {
    if o.Some? then ValueOf(o.value) else 0
  }

  /** h ":" m ":" s, blanks. */
  datatype Hms = Hms(hours: string, minutes: string, seconds: string, blanks: string) {
    predicate Valid() {
      Number(hours) && Number(minutes) && Number(seconds) && Blank(blanks)
    }

    function Text(): string {
      hours + [':'] + (minutes + [':'] + (seconds + blanks))
    }

    function Value(): nat {
      (ValueOf(hours) * 60 + ValueOf(minutes)) * 60 + ValueOf(seconds)
    }
  }

  /** Blanks, (number "w")?, blanks, (number "d")?, blanks, h ":" m ":" s, blanks. */
  datatype Parts = Parts(b0: string, weeks: Option<string>, b1: string, days: Option<string>, b2: string, clock: Hms) {
    predicate Valid() {
      Blank(b0) && Blank(b1) && Blank(b2) && OptionalNumber(weeks) && OptionalNumber(days) && clock.Valid()
    }

    function Text(): string {
      b0 + With(weeks, 'w', b1 + With(days, 'd', b2 + clock.Text()))
    }

    function Value(): nat {
      (OptionalValue(weeks) * 7 + OptionalValue(days)) * 86400 + clock.Value()
    }
  }

  lemma {:induction false} SkipOver(b: string, rest: string)
    requires Blank(b)
    ensures Skip(b + rest) == Skip(rest)
  {
    if b == "" {
      assert b + rest == rest;
    } else {
      assert (b + rest)[1..] == b[1..] + rest;
      SkipOver(b[1..], rest);
    }
  }

  lemma {:induction false} ReadOver(acc: nat, n: string, rest: string)
    requires (forall i | 0 <= i < |n| :: Digit(n[i])) && !DigitAhead(rest)
    ensures Read(acc, n + rest) == (ValueFrom(acc, n), rest)
    decreases |n|
  {
    if n == "" {
      assert n + rest == rest;
    } else {
      assert (n + rest)[1..] == n[1..] + rest;
      ReadOver(10 * acc + Weight(n[0]), n[1..], rest);
    }
  }

  /** A number in front of a character that is no digit. */
  lemma BeforeNumber(c: char, n: string, x: char, rest: string)
    requires Number(n) && !Digit(x)
    ensures Before(c, n + [x] + rest) == if x == c then Some((ValueOf(n), rest)) else None
  {
    ReadOver(0, n, [x] + rest);
    assert n + [x] + rest == n + ([x] + rest);
    assert ([x] + rest)[1..] == rest;
  }

  lemma LastNumber(n: string, b: string)
    requires Number(n) && Blank(b)
    ensures Last(n + b) == Some(ValueOf(n))
  {
    ReadOver(0, n, b);
    SkipOver(b, "");
    assert b + "" == b;
  }

  lemma ClockFrom(s: string, h: string, v: string, m: string, u: string, n: nat)
    requires Number(h) && Number(m) && s == h + [':'] + v && v == m + [':'] + u && Last(u) == Some(n)
    ensures ParseClock(s) == Some((ValueOf(h) * 60 + ValueOf(m)) * 60 + n)
  {
    BeforeNumber(':', m, ':', u);
    BeforeNumber(':', h, ':', v);
  }

  lemma ClockParses(t: Hms)
    requires t.Valid()
    ensures ParseClock(t.Text()) == Some(t.Value())
  {
    var u := t.seconds + t.blanks;
    LastNumber(t.seconds, t.blanks);
    ClockFrom(t.Text(), t.hours, t.minutes + [':'] + u, t.minutes, u, ValueOf(t.seconds));
  }

  lemma UnitSteps(c: char, s: string, a: string, n: string, x: char, rest: string)
    requires Skip(s) == a && a == n + [x] + rest && Number(n) && !Digit(x)
    ensures Unit(c, s) == if x == c then (ValueOf(n), rest) else (0, a)
  {
    BeforeNumber(c, n, x, rest);
  }

  lemma NumberAhead(n: string, x: char, rest: string)
    requires Number(n)
    ensures Skip(n + [x] + rest) == n + [x] + rest
  {}

  /** Whatever blanks come first, there are no weeks, and the days are read off. */
  lemma DaysParse(days: Option<string>, b: string, clock: string, h: string, v: string, s: string)
    requires OptionalNumber(days) && Blank(b) && Number(h) && clock == h + [':'] + v
    requires Skip(s) == Skip(With(days, 'd', b + clock))
    ensures Unit('w', s) == (0, Skip(s)) && Skip(Skip(s)) == Skip(s)
    ensures Unit('d', s).0 == OptionalValue(days) && Skip(Unit('d', s).1) == clock
  {
    NumberAhead(h, ':', v);
    SkipOver(b, clock);
    if days.Some? {
      NumberAhead(days.value, 'd', b + clock);
      UnitSteps('w', s, Skip(s), days.value, 'd', b + clock);
      UnitSteps('d', s, Skip(s), days.value, 'd', b + clock);
    } else {
      UnitSteps('w', s, clock, h, ':', v);
      UnitSteps('d', s, clock, h, ':', v);
    }
  }

  lemma WeeksParse(b: string, n: string, rest: string)
    requires Blank(b) && Number(n)
    ensures Unit('w', b + (n + ['w'] + rest)) == (ValueOf(n), rest)
  {
    var a := n + ['w'] + rest;
    SkipOver(b, a);
    NumberAhead(n, 'w', rest);
    UnitSteps('w', b + a, a, n, 'w', rest);
  }

  lemma ParseSteps(text: string, w: nat, r: string, d: nat, q: string, n: nat)
    requires Unit('w', text) == (w, r) && Unit('d', r) == (d, q) && ParseClock(Skip(q)) == Some(n)
    ensures Parse(text) == Some((w * 7 + d) * 86400 + n)
  {}

  lemma TextParses(b0: string, weeks: Option<string>, b1: string, rest: string, days: Option<string>, b2: string,
                   clock: string, h: string, v: string, n: nat)
    requires OptionalNumber(weeks) && Blank(b0) && Blank(b1) && OptionalNumber(days) && Blank(b2)
    requires Number(h) && clock == h + [':'] + v && rest == With(days, 'd', b2 + clock) && ParseClock(clock) == Some(n)
    ensures Parse(b0 + With(weeks, 'w', b1 + rest)) == Some((OptionalValue(weeks) * 7 + OptionalValue(days)) * 86400 + n)
  {
    SkipOver(b1, rest);
    if weeks.Some? {
      WeeksParse(b0, weeks.value, b1 + rest);
      DaysParse(days, b2, clock, h, v, b1 + rest);
      ParseSteps(b0 + With(weeks, 'w', b1 + rest), ValueOf(weeks.value), b1 + rest, OptionalValue(days), Unit('d', b1 + rest).1, n);
    } else {
      var s := b0 + (b1 + rest);
      SkipOver(b0, b1 + rest);
      DaysParse(days, b2, clock, h, v, s);
      DaysParse(days, b2, clock, h, v, Skip(s));
      ParseSteps(s, 0, Skip(s), OptionalValue(days), Unit('d', Skip(s)).1, n);
    }
  }

  /** Every text of the grammar parses to its value; so no text has two values. */
  lemma GrammarIsParsed(p: Parts)
    requires p.Valid()
    ensures Parse(p.Text()) == Some(p.Value())
  {
    var t := p.clock;
    ClockParses(t);
    TextParses(p.b0, p.weeks, p.b1, With(p.days, 'd', p.b2 + t.Text()), p.days, p.b2, t.Text(),
               t.hours, t.minutes + [':'] + (t.seconds + t.blanks), t.Value());
  }

  /** Blanks split off the front. */
  lemma {:induction false} SkipSplits(s: string) returns (b: string)
    ensures Blank(b) && s == b + Skip(s)
  {
    if s != "" && Space(s[0]) {
      var rest := SkipSplits(s[1..]);
      b := [s[0]] + rest;
    } else {
      b := "";
    }
  }

  lemma {:induction false} ReadSplits(acc: nat, s: string) returns (n: string)
    ensures (forall i | 0 <= i < |n| :: Digit(n[i])) && s == n + Read(acc, s).1 && Read(acc, s).0 == ValueFrom(acc, n)
    ensures DigitAhead(s) ==> n != ""
    decreases |s|
  {
    if DigitAhead(s) {
      var rest := ReadSplits(10 * acc + Weight(s[0]), s[1..]);
      n := [s[0]] + rest;
      assert n[1..] == rest;
    } else {
      n := "";
    }
  }

  lemma BeforeSplits(c: char, s: string) returns (n: string)
    requires Before(c, s).Some?
    ensures Number(n) && s == n + [c] + Before(c, s).value.1 && Before(c, s).value.0 == ValueOf(n)
  {
    n := ReadSplits(0, s);
    var rest := Read(0, s).1;
    assert rest == [c] + rest[1..];
  }

  lemma UnitSplits(c: char, s: string) returns (b: string, o: Option<string>)
    ensures Blank(b) && OptionalNumber(o) && s == b + With(o, c, Unit(c, s).1)
    ensures Unit(c, s).0 == OptionalValue(o)
  {
    b := SkipSplits(s);
    if Before(c, Skip(s)).Some? {
      var n := BeforeSplits(c, Skip(s));
      o := Some(n);
    } else {
      o := None;
    }
  }

  lemma LastSplits(s: string) returns (n: string, b: string)
    requires Last(s).Some?
    ensures Number(n) && Blank(b) && s == n + b && Last(s) == Some(ValueOf(n))
  {
    n := ReadSplits(0, s);
    b := SkipSplits(Read(0, s).1);
    assert b == Read(0, s).1;
  }

  lemma ClockSplits(s: string) returns (h: string, m: string, n: string, b: string)
    requires ParseClock(s).Some?
    ensures Number(h) && Number(m) && Number(n) && Blank(b) && s == h + [':'] + (m + [':'] + (n + b))
    ensures ParseClock(s) == Some((ValueOf(h) * 60 + ValueOf(m)) * 60 + ValueOf(n))
  {
    h := BeforeSplits(':', s);
    m := BeforeSplits(':', Before(':', s).value.1);
    n, b := LastSplits(Before(':', Before(':', s).value.1).value.1);
  }

  lemma TextSplits(text: string) returns (b0: string, w: Option<string>, b1: string, d: Option<string>, b2: string, clock: string)
    requires Parse(text).Some?
    ensures Blank(b0) && Blank(b1) && Blank(b2) && OptionalNumber(w) && OptionalNumber(d)
    ensures text == b0 + With(w, 'w', b1 + With(d, 'd', b2 + clock)) && ParseClock(clock).Some?
    ensures Parse(text) == Some((OptionalValue(w) * 7 + OptionalValue(d)) * 86400 + ParseClock(clock).value)
  {
    b0, w := UnitSplits('w', text);
    b1, d := UnitSplits('d', Unit('w', text).1);
    b2 := SkipSplits(Unit('d', Unit('w', text).1).1);
    clock := Skip(Unit('d', Unit('w', text).1).1);
  }

  lemma ParsedIsGrammar(text: string) returns (p: Parts)
    requires Parse(text).Some?
    ensures p.Valid() && p.Text() == text && Parse(text) == Some(p.Value())
  {
    var b0, w, b1, d, b2, clock := TextSplits(text);
    var h, m, n, b3 := ClockSplits(clock);
    p := Parts(b0, w, b1, d, b2, Hms(h, m, n, b3));
  }

  /** Main theorem on the parser: it accepts exactly the texts of the grammar, with their value. */
  lemma ParserIsTheGrammar(text: string, n: nat)
    ensures Parse(text) == Some(n) <==> exists p: Parts :: p.Valid() && p.Text() == text && p.Value() == n
  {
    forall p: Parts | p.Valid() && p.Text() == text ensures Parse(text) == Some(p.Value()) {
      GrammarIsParsed(p);
    }
    if Parse(text) == Some(n) {
      var p := ParsedIsGrammar(text);
    }
  }

  // ----- The round trip -----

  function Shown(seconds: nat): Parts {
    var days, rest := seconds / 86400, seconds % 86400;
    Parts("", None, "", if days == 0 then None else Some(Decimal(days)), if days == 0 then "" else [' '],
          Hms(Padded(rest / 3600), Padded(rest % 3600 / 60), Padded(rest % 60), ""))
  }

  lemma ClockShown(rest: nat)
    requires rest < 86400
    ensures var t := Hms(Padded(rest / 3600), Padded(rest % 3600 / 60), Padded(rest % 60), "");
            t.Valid() && t.Text() == Clock(rest) && t.Value() == rest
  {
    PaddedComesBack(rest / 3600);
    PaddedComesBack(rest % 3600 / 60);
    PaddedComesBack(rest % 60);
    assert Padded(rest % 60) + "" == Padded(rest % 60);
    assert rest == (rest / 3600 * 60 + rest % 3600 / 60) * 60 + rest % 60;
  }

  lemma ShownIsFormat(seconds: nat)
    ensures Shown(seconds).Valid() && Shown(seconds).Text() == Format(Some(seconds)) && Shown(seconds).Value() == seconds
  {
    var days, rest, p := seconds / 86400, seconds % 86400, Shown(seconds);
    ClockShown(rest);
    DecimalComesBack(days);
    assert p.Text() == With(p.days, 'd', p.b2 + Clock(rest));
    if days == 0 {
      assert "" + Clock(rest) == Clock(rest);
    }
  }

  lemma MinusIsRefused(s: string)
    requires s != "" && s[0] == '-'
    ensures Parse(s) == None
  {}

  /** Main theorem: the parser undoes the printer on every uptime from 0 on and on the missing one,
      and refuses exactly the texts printed for negative numbers. */
  lemma ParserUndoesPrinter(seconds: Option<int>)
    ensures seconds.None? || seconds.value < 0 ==> Parse(Format(seconds)) == None
    ensures seconds.Some? && seconds.value >= 0 ==> Parse(Format(seconds)) == Some(seconds.value)
  {
    if seconds.None? || seconds.value < 0 {
      MinusIsRefused(Format(seconds));
    } else {
      ShownIsFormat(seconds.value);
      GrammarIsParsed(Shown(seconds.value));
    }
  }

  // ----- What is printed -----

  /** A decimal numeral: digits without a superfluous zero in front, of this value. */
  predicate Numeral(t: string, n: nat) {
    Number(t) && ValueOf(t) == n && (t[0] == '0' ==> t == "0")
  }

  lemma {:induction false} DecimalIsNumeral(n: nat)
    ensures Numeral(Decimal(n), n)
  {
    DecimalComesBack(n);
    if n >= 10 {
      DecimalIsNumeral(n / 10);
      ZeroIsZero();
      assert Decimal(n / 10) != "0" && Decimal(n)[0] == Decimal(n / 10)[0];
    }
  }

  lemma ZeroIsZero()
    ensures ValueOf("0") == 0
  {
    ValueSnoc(0, "", '0');
    assert "" + ['0'] == "0";
  }

  function Figure(n: nat): char
    requires n < 10
  {
    if n == 0 then '0' else if n == 1 then '1' else if n == 2 then '2' else if n == 3 then '3' else if n == 4 then '4'
    else if n == 5 then '5' else if n == 6 then '6' else if n == 7 then '7' else if n == 8 then '8' else '9'
  }

  lemma PaddedIs(n: nat)
    requires n < 100
    ensures Padded(n) == [Figure(n / 10), Figure(n % 10)]
  {
    assert DigitOf(n / 10) == Figure(n / 10) && DigitOf(n % 10) == Figure(n % 10);
    if n >= 10 {
      assert Decimal(n / 10) == [DigitOf(n / 10)];
    }
  }

  function ClockText(h: nat, m: nat, s: nat): string
    requires h < 24 && m < 60 && s < 60
  {
    [Figure(h / 10), Figure(h % 10), ':', Figure(m / 10), Figure(m % 10), ':', Figure(s / 10), Figure(s % 10)]
  }

  lemma ClockParts(h: nat, m: nat, s: nat)
    requires h < 24 && m < 60 && s < 60
    ensures var rest := h * 3600 + m * 60 + s; rest / 3600 == h && rest % 3600 / 60 == m && rest % 60 == s
  {}

  lemma ClockIs(h: nat, m: nat, s: nat)
    requires h < 24 && m < 60 && s < 60
    ensures Clock(h * 3600 + m * 60 + s) == ClockText(h, m, s)
  {
    ClockParts(h, m, s);
    PaddedIs(h);
    PaddedIs(m);
    PaddedIs(s);
    Glued(Padded(h), Padded(m), Padded(s));
  }

  lemma Glued(a: string, b: string, c: string)
    requires |a| == |b| == |c| == 2
    ensures a + [':'] + (b + [':'] + c) == [a[0], a[1], ':', b[0], b[1], ':', c[0], c[1]]
  {}

  /** A numeral, with a minus in front of a negative number. */
  predicate SignedNumeral(t: string, n: int) {
    if n >= 0 then Numeral(t, n) else t != "" && t[0] == '-' && Numeral(t[1..], -n)
  }

  lemma SignedIs(n: int)
    ensures SignedNumeral(Signed(n), n)
  {
    if n >= 0 {
      DecimalIsNumeral(n);
    } else {
      DecimalIsNumeral(-n);
      assert Signed(n)[1..] == Decimal(-n);
    }
  }

  lemma FormatIs(seconds: int, d: int, rest: nat)
    requires seconds == d * 86400 + rest && rest < 86400
    ensures Format(Some(seconds)) == if d == 0 then Clock(rest) else Signed(d) + "d " + Clock(rest)
  {
    assert seconds / 86400 == d && seconds % 86400 == rest;
    assert Signed(d) + ['d'] + ([' '] + Clock(rest)) == Signed(d) + "d " + Clock(rest);
  }

  ghost predicate PrintedAs(text: string, d: int, clock: string) {
    if d == 0 then text == clock else exists days :: SignedNumeral(days, d) && text == days + "d " + clock
  }

  /** Main theorem on the printer: d days, h hours, m minutes and s seconds print as two figures each
      between colons, after the days and a "d " when there are any; a negative uptime has its days rounded
      down. */
  lemma PrintedExactly(seconds: int, d: int, h: nat, m: nat, s: nat)
    requires seconds == d * 86400 + h * 3600 + m * 60 + s && h < 24 && m < 60 && s < 60
    ensures PrintedAs(Format(Some(seconds)), d, ClockText(h, m, s))
    ensures Format(None) == "-"
  {
    FormatIs(seconds, d, h * 3600 + m * 60 + s);
    ClockIs(h, m, s);
    SignedIs(d);
    NumeralFound(Format(Some(seconds)), Signed(d), d, ClockText(h, m, s));
  }

  lemma NumeralFound(text: string, days: string, d: int, clock: string)
    requires SignedNumeral(days, d) && text == if d == 0 then clock else days + "d " + clock
    ensures PrintedAs(text, d, clock)
  {}
}
