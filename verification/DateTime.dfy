/** UTC timestamps: microseconds since 1970-01-01 as text, and back. */
module DateTime {
  import opened Arithmetic
  import opened Calendar
  import opened Pieces
  import opened Options

  const I64_MAX: int := 0x7FFF_FFFF_FFFF_FFFF
  const I64_MIN: int := -0x8000_0000_0000_0000

  // ---------------------------------------------------------------------------
  // Decimal digits
  // ---------------------------------------------------------------------------

  predicate IsDigit(c: char) {
    '0' <= c <= '9'
  }

  predicate AllDigits(s: string) {
    forall i :: 0 <= i < |s| ==> IsDigit(s[i])
  }

  function Value(c: char): int
    requires IsDigit(c)
  {
    c as int - '0' as int
  }

  function DigitOf(v: int): (c: char)
    requires 0 <= v <= 9
    ensures IsDigit(c) && Value(c) == v
  {
    (v + '0' as int) as char
  }

  // The number a run of digits denotes
  function Number(s: string): (v: nat)
    requires AllDigits(s)
  {
    if s == "" then 0 else Number(s[..|s| - 1]) * 10 + Value(s[|s| - 1])
  }

  // printf's %0<w>d of a non-negative number
  function Pad(v: nat, w: nat): (s: string)
    ensures AllDigits(s) && Number(s) == v && |s| >= w && |s| >= 1
    ensures w >= 1 && v < Pow10(w) ==> |s| == w
    ensures w >= 1 && v >= Pow10(w) ==> |s| > w
    decreases v, w
  {
    if v < 10 && w <= 1 then [DigitOf(v)]
    else
      var rest := Pad(v / 10, if w == 0 then 0 else w - 1);
      var s := rest + [DigitOf(v % 10)];
      assert s[..|s| - 1] == rest;
      s
  }

  function Pow10(k: nat): (p: nat)
    ensures p >= 1
  {
    if k == 0 then 1 else 10 * Pow10(k - 1)
  }

  // %0<w>d with a sign
  function Signed(v: int, w: nat): string {
    if v >= 0 then Pad(v, w) else "-" + Pad(-v, if w == 0 then 0 else w - 1)
  }

  // The fraction without trailing zeros
  function Stripped(s: string): (r: string)
    requires AllDigits(s)
    ensures AllDigits(r) && |r| <= |s| && (r == "" || r[|r| - 1] != '0')
  {
    if s != "" && s[|s| - 1] == '0' then Stripped(s[..|s| - 1]) else s
  }

  lemma {:induction false} StrippedValue(s: string)
    requires AllDigits(s)
    ensures Number(Stripped(s)) * Pow10(|s| - |Stripped(s)|) == Number(s)
    decreases |s|
  {
    if s != "" && s[|s| - 1] == '0' {
      var t := s[..|s| - 1];
      StrippedValue(t);
      var k := |t| - |Stripped(t)|;
      assert Number(Stripped(t)) * (10 * Pow10(k)) == 10 * (Number(Stripped(t)) * Pow10(k));
    } else {
      assert Pow10(0) == 1;
    }
  }

  // ---------------------------------------------------------------------------
  // Reading
  // ---------------------------------------------------------------------------

  // A C string read past its end shows the terminator
  function At(s: string, p: nat): char {
    if p < |s| then s[p] else '\0'
  }

  // n digits at p
  function Field(s: string, p: nat, n: nat): Option<nat> {
    if p + n <= |s| && AllDigits(s[p..p + n]) then Some(Number(s[p..p + n])) else None
  }

  // One digit more
  lemma Extend(s: string, p: nat, i: nat)
    requires p + i < |s| && AllDigits(s[p..p + i]) && IsDigit(s[p + i])
    ensures AllDigits(s[p..p + i + 1]) && Number(s[p..p + i + 1]) == Number(s[p..p + i]) * 10 + Value(s[p + i])
  {
    var t := s[p..p + i + 1];
    assert t == s[p..p + i] + [s[p + i]];
    assert t[..|t| - 1] == s[p..p + i];
  }

  method ParseDigits(s: string, p: nat, n: nat) returns (r: Option<nat>)
    ensures r == Field(s, p, n)
  {
    var value: nat := 0;
    for i := 0 to n
      invariant p + i <= |s| || i == 0
      invariant i > 0 ==> AllDigits(s[p..p + i]) && value == Number(s[p..p + i])
      invariant i == 0 ==> value == 0
    {
      if !IsDigit(At(s, p + i)) { return None; }
      assert i == 0 ==> s[p..p + i] == "";
      Extend(s, p, i);
      value := value * 10 + Value(At(s, p + i));
    }
    if n == 0 && p > |s| { return None; }
    assert n == 0 ==> s[p..p] == "";
    return Some(value);
  }

  // Digits from p on, as many as there are
  function Run(s: string, p: nat): (k: nat)
    ensures k == 0 || p + k <= |s|
    ensures k > 0 ==> AllDigits(s[p..p + k])
    ensures !IsDigit(At(s, p + k))
    decreases if p < |s| then |s| - p else 0
  {
    if !IsDigit(At(s, p)) then 0
    else
      var k := Run(s, p + 1);
      assert s[p..p + 1 + k] == [s[p]] + if k == 0 then "" else s[p + 1..p + 1 + k];
      1 + k
  }

  function ParseDate(s: string): Option<Date> {
    var year, month, day := Field(s, 0, 4), Field(s, 5, 2), Field(s, 8, 2);
    if year.None? || At(s, 4) != '-' || month.None? || At(s, 7) != '-' || day.None? then None
    else if year.value < 1 || !Valid(Date(year.value, month.value, day.value)) then None
    else Some(Date(year.value, month.value, day.value))
  }

  // Seconds of the day at position 11
  function ParseTime(s: string): Option<nat> {
    var hour, minute, second := Field(s, 11, 2), Field(s, 14, 2), Field(s, 17, 2);
    if hour.None? || At(s, 13) != ':' || minute.None? || At(s, 16) != ':' || second.None? then None
    else if hour.value > 23 || minute.value > 59 || second.value > 59 then None
    else Some(hour.value * 3600 + minute.value * 60 + second.value)
  }

  // Microseconds, from the point at position 19 to the end of the text
  function ParseFraction(s: string): Option<nat> {
    if At(s, 19) == '\0' then Some(0)
    else if At(s, 19) != '.' then None
    else
      var k := Run(s, 20);
      if k == 0 || k > 6 || At(s, 20 + k) != '\0' then None
      else Some(Number(s[20..20 + k]) * Pow10(6 - k))
  }

  // A moment taken apart
  datatype Moment = Moment(date: Date, second: nat, micro: nat)

  ghost predicate Proper(m: Moment) {
    Valid(m.date) && m.second < 86400 && m.micro < 1000000
  }

  function ParseMoment(s: string): Option<Moment> {
    var date := ParseDate(s);
    if date.None? then None
    else if At(s, 10) == '\0' then Some(Moment(date.value, 0, 0))
    else if At(s, 10) != ' ' && At(s, 10) != 'T' then None
    else
      var time, micros := ParseTime(s), ParseFraction(s);
      if time.None? || micros.None? then None else Some(Moment(date.value, time.value, micros.value))
  }

  // Microseconds since the epoch
  function Instant(m: Moment): int {
    (DaysFromCivil(m.date) * 86400 + m.second) * 1000000 + m.micro
  }

  function ParseUtc(s: string): Option<int> {
    match ParseMoment(s)
    case None => None
    case Some(m) => Some(Instant(m))
  }

  // Years 1 to 9999 are far inside the 64-bit range
  lemma InRange(date: Date, seconds: int)
    requires Valid(date) && 1 <= date.year <= 9999 && 0 <= seconds < 86400
    ensures TDiv(I64_MIN, 1000000) <= DaysFromCivil(date) * 86400 + seconds <= I64_MAX / 1000000
  {
    var era, yoe := Parts(date);
    DaysAre(date, era, yoe);
    var doe := Within(date, yoe, MarchMonth(date.month));
  }

  lemma FieldSize(s: string, p: nat, n: nat)
    requires Field(s, p, n).Some?
    ensures Field(s, p, n).value < Pow10(n)
  {
    NumberSize(s[p..p + n]);
  }

  lemma {:induction false} NumberSize(s: string)
    requires AllDigits(s)
    ensures Number(s) < Pow10(|s|)
    decreases |s|
  {
    if s != "" { NumberSize(s[..|s| - 1]); }
  }

  // datetime_parse_utc
  method Parse(text: string) returns (r: Option<int>)
    ensures r == ParseUtc(text)
    // a text is accepted exactly if it denotes a moment, and the answer is that moment's instant
    ensures CString(text) ==> (r.Some? <==> exists m :: Denotes(text, m))
    ensures CString(text) ==> forall m :: Denotes(text, m) ==> r == Some(Instant(m))
  {
    if CString(text) {
      forall m ensures ParseMoment(text) == Some(m) <==> Denotes(text, m) { ParseMeans(text, m); }
      assert ParseMoment(text).Some? ==> Denotes(text, ParseMoment(text).value);
    }
    var moment := ReadMoment(text);
    if moment.None? { return None; }
    var m := moment.value;
    MomentInRange(text);
    var all := DaysFromCivil(m.date) * 86400 + m.second;
    if all > I64_MAX / 1000000 || all < TDiv(I64_MIN, 1000000) { return None; }
    return Some(all * 1000000 + m.micro);
  }

  lemma MomentInRange(s: string)
    requires ParseMoment(s).Some?
    ensures var m := ParseMoment(s).value;
            TDiv(I64_MIN, 1000000) <= DaysFromCivil(m.date) * 86400 + m.second <= I64_MAX / 1000000
  {
    var m := ParseMoment(s).value;
    FieldSize(s, 0, 4);
    assert Pow10(4) == 10000;
    InRange(m.date, m.second);
  }

  method ReadMoment(s: string) returns (r: Option<Moment>)
    ensures r == ParseMoment(s)
  {
    var date := ReadDate(s);
    if date.None? { return None; }
    if At(s, 10) == '\0' { return Some(Moment(date.value, 0, 0)); }
    if At(s, 10) != ' ' && At(s, 10) != 'T' { return None; }
    var time := ReadTime(s);
    if time.None? { return None; }
    var fraction := ReadFraction(s);
    if fraction.None? { return None; }
    return Some(Moment(date.value, time.value, fraction.value));
  }

  method ReadDate(s: string) returns (r: Option<Date>)
    ensures r == ParseDate(s)
  {
    var year := ParseDigits(s, 0, 4);
    if year.None? || At(s, 4) != '-' { return None; }
    var month := ParseDigits(s, 5, 2);
    if month.None? || At(s, 7) != '-' { return None; }
    var day := ParseDigits(s, 8, 2);
    if day.None? { return None; }
    if year.value < 1 || month.value < 1 || month.value > 12 || day.value < 1 ||
      day.value > DaysInMonth(year.value, month.value) {
      return None;
    }
    return Some(Date(year.value, month.value, day.value));
  }

  method ReadTime(s: string) returns (r: Option<nat>)
    ensures r == ParseTime(s)
  {
    var hour := ParseDigits(s, 11, 2);
    if hour.None? || At(s, 13) != ':' { return None; }
    var minute := ParseDigits(s, 14, 2);
    if minute.None? || At(s, 16) != ':' { return None; }
    var second := ParseDigits(s, 17, 2);
    if second.None? || hour.value > 23 || minute.value > 59 || second.value > 59 { return None; }
    return Some(hour.value * 3600 + minute.value * 60 + second.value);
  }

  // One pass over the digits, dropping those beyond the sixth, then scaling up
  method ReadFraction(s: string) returns (r: Option<nat>)
    ensures r == ParseFraction(s)
  {
    if At(s, 19) != '.' { return if At(s, 19) == '\0' then Some(0) else None; }
    var k := Run(s, 20);
    var micros: nat := 0;
    var digits: nat := 0;
    while IsDigit(At(s, 20 + digits))
      invariant digits <= k
      invariant 20 + digits <= |s| || digits == 0
      invariant 0 < digits <= 6 ==> AllDigits(s[20..20 + digits]) && micros == Number(s[20..20 + digits])
      invariant digits == 0 ==> micros == 0
      invariant digits < k ==> IsDigit(At(s, 20 + digits))
      decreases k - digits
    {
      assert digits < k by { RunIsMaximal(s, 20, digits); }
      if digits < 6 {
        assert digits == 0 ==> s[20..20 + digits] == "";
        Extend(s, 20, digits);
        micros := micros * 10 + Value(At(s, 20 + digits));
      }
      digits := digits + 1;
      if digits < k { RunDigits(s, 20, digits); }
    }
    assert digits == k;
    if digits == 0 || digits > 6 { return None; }
    ghost var read := micros;
    var scaled := digits;
    while scaled < 6
      invariant digits <= scaled <= 6
      invariant micros == read * Pow10(scaled - digits)
    {
      PowStep(read, scaled - digits);
      micros := micros * 10;
      scaled := scaled + 1;
    }
    if At(s, 20 + digits) != '\0' { return None; }
    return Some(micros);
  }

  lemma PowStep(v: nat, k: nat)
    ensures v * Pow10(k) * 10 == v * Pow10(k + 1)
  {
    assert v * (10 * Pow10(k)) == v * Pow10(k) * 10;
  }

  lemma RunDigits(s: string, p: nat, i: nat)
    requires i < Run(s, p)
    ensures IsDigit(At(s, p + i))
  {
    assert s[p..p + Run(s, p)][i] == s[p + i];
  }

  lemma {:induction false} RunIsMaximal(s: string, p: nat, i: nat)
    requires i <= Run(s, p) && IsDigit(At(s, p + i))
    ensures i < Run(s, p)
  {
  }

  // ---------------------------------------------------------------------------
  // Writing
  // ---------------------------------------------------------------------------

  // Truncating division with the negative remainder put right
  lemma SplitIs(a: int, b: int)
    requires b > 0
    ensures var q, r := TDiv(a, b), TMod(a, b);
            if r < 0 then a == b * (q - 1) + (r + b) && 0 <= r + b < b else a == b * q + r && r < b
  {
    if a < 0 {
      var n := -a;
      assert n == b * (n / b) + n % b;
      assert b * (-(n / b)) == -(b * (n / b));
      assert b * (TDiv(a, b) - 1) == b * TDiv(a, b) - b;
    } else {
      assert a == b * (a / b) + a % b;
    }
  }

  method Split(a: int, b: int) returns (q: int, r: nat)
    requires b > 0
    ensures a == b * q + r && r < b
  {
    SplitIs(a, b);
    q := TDiv(a, b);
    var rest := TMod(a, b);
    if rest < 0 {
      rest := rest + b;
      q := q - 1;
    }
    r := rest;
  }

  // The moment of an instant
  function MomentOf(micros: int): (m: Moment)
    ensures Proper(m) && Instant(m) == micros
  {
    var seconds := micros / 1000000;
    var days := seconds / 86400;
    DaysInverse(days);
    Moment(CivilFromDays(days), seconds % 86400, micros % 1000000)
  }

  method TakeApart(micros: int) returns (m: Moment)
    ensures m == MomentOf(micros)
  {
    var seconds, usec := Split(micros, 1000000);
    var days, sod := Split(seconds, 86400);
    DivUnique(micros, 1000000, seconds, usec);
    DivUnique(seconds, 86400, days, sod);
    return Moment(CivilFromDays(days), sod, usec);
  }

  function DateText(t: Date): string
    requires Valid(t)
  {
    Signed(t.year, 4) + ("-" + Pad(t.month, 2) + "-" + Pad(t.day, 2))
  }

  function Clock(hour: nat, minute: nat, second: nat): string {
    Pad(hour, 2) + ":" + Pad(minute, 2) + ":" + Pad(second, 2)
  }

  function TimeText(second: nat): string {
    Clock(second / 3600, second % 3600 / 60, second % 60)
  }

  function FractionText(micro: nat): string {
    if micro == 0 then "" else "." + Stripped(Pad(micro, 6))
  }

  function MomentText(m: Moment): string
    requires Valid(m.date)
  {
    DateText(m.date) + " " + TimeText(m.second) + FractionText(m.micro)
  }

  function FormatUtc(micros: int): string {
    MomentText(MomentOf(micros))
  }

  // datetime_format_utc
  method Format(micros: int) returns (text: string)
    ensures text == FormatUtc(micros)
  {
    var m := TakeApart(micros);
    var usec := m.micro;
    text := DateText(m.date) + " " + TimeText(m.second);
    if usec == 0 {
      assert text + "" == text;
      return;
    }
    var frac := Strip(Pad(usec, 6));
    text := text + ("." + frac);
  }

  method Strip(digits: string) returns (frac: string)
    requires AllDigits(digits)
    ensures frac == Stripped(digits)
  {
    frac := digits;
    while |frac| > 0 && frac[|frac| - 1] == '0'
      invariant AllDigits(frac) && Stripped(frac) == Stripped(digits)
    {
      frac := frac[..|frac| - 1];
    }
  }

  // ---------------------------------------------------------------------------
  // Reading what was written
  // ---------------------------------------------------------------------------

  lemma CharAt(s: string, p: nat, c: char)
    requires Holds(s, p, [c])
    ensures At(s, p) == c
  {
    assert [c][0] == s[p];
  }

  lemma PadField(s: string, p: nat, v: nat, w: nat)
    requires w >= 1 && v < Pow10(w) && Holds(s, p, Pad(v, w))
    ensures Field(s, p, w) == Some(v)
  {
    var digits := Pad(v, w);
    assert |digits| == w && s[p..p + w] == digits;
  }

  lemma Pows()
    ensures Pow10(2) == 100 && Pow10(4) == 10000 && Pow10(6) == 1000000
  {
    assert Pow10(3) == 1000 && Pow10(5) == 100000;
  }

  // Month and day behind a year that ends at p
  lemma DateTail(s: string, p: nat, t: Date)
    requires Valid(t) && Holds(s, p, "-" + Pad(t.month, 2) + "-" + Pad(t.day, 2))
    ensures At(s, p) == '-' && Field(s, p + 1, 2) == Some(t.month) && At(s, p + 3) == '-'
    ensures Field(s, p + 4, 2) == Some(t.day)
  {
    Pows();
    Halves(s, p, "-" + Pad(t.month, 2) + "-", Pad(t.day, 2));
    Halves(s, p, "-" + Pad(t.month, 2), "-");
    Halves(s, p, "-", Pad(t.month, 2));
    CharAt(s, p, '-');
    CharAt(s, p + 3, '-');
    PadField(s, p + 1, t.month, 2);
    PadField(s, p + 4, t.day, 2);
  }

  lemma DateBack(s: string, t: Date)
    requires Valid(t) && Holds(s, 0, DateText(t))
    ensures ParseDate(s) == if 1 <= t.year <= 9999 then Some(t) else None
    ensures 0 <= t.year <= 9999 ==> |DateText(t)| == 10
  {
    Pows();
    var tail := "-" + Pad(t.month, 2) + "-" + Pad(t.day, 2);
    Halves(s, 0, Signed(t.year, 4), tail);
    if t.year < 0 {
      Halves(s, 0, "-", Pad(-t.year, 3));
      CharAt(s, 0, '-');
      if 4 <= |s| { assert s[0..4][0] == '-'; }
    } else if t.year <= 9999 {
      DateTail(s, 4, t);
      PadField(s, 0, t.year, 4);
    } else {
      var y := Pad(t.year, 4);
      assert At(s, 4) == y[4] by { assert s[0..|y|][4] == s[4]; }
    }
  }

  lemma ClockBack(s: string, h: nat, m: nat, c: nat)
    requires h <= 23 && m <= 59 && c <= 59 && Holds(s, 11, Clock(h, m, c))
    ensures Field(s, 11, 2) == Some(h) && At(s, 13) == ':' && Field(s, 14, 2) == Some(m) && At(s, 16) == ':'
    ensures Field(s, 17, 2) == Some(c)
    ensures |Clock(h, m, c)| == 8
  {
    Pows();
    Halves(s, 11, Pad(h, 2) + ":" + Pad(m, 2) + ":", Pad(c, 2));
    Halves(s, 11, Pad(h, 2) + ":" + Pad(m, 2), ":");
    Halves(s, 11, Pad(h, 2) + ":", Pad(m, 2));
    Halves(s, 11, Pad(h, 2), ":");
    PadField(s, 11, h, 2);
    CharAt(s, 13, ':');
    PadField(s, 14, m, 2);
    CharAt(s, 16, ':');
    PadField(s, 17, c, 2);
  }

  lemma TimeBack(s: string, second: nat)
    requires second < 86400 && Holds(s, 11, TimeText(second))
    ensures ParseTime(s) == Some(second) && |TimeText(second)| == 8
  {
    var h, m, c := second / 3600, second % 3600 / 60, second % 60;
    Sexagesimal(second);
    ClockBack(s, h, m, c);
  }

  lemma Sexagesimal(second: nat)
    requires second < 86400
    ensures second / 3600 <= 23 && second % 3600 / 60 <= 59
    ensures second / 3600 * 3600 + second % 3600 / 60 * 60 + second % 60 == second
  {
  }

  lemma {:induction false} RunToEnd(s: string, p: nat)
    requires p <= |s| && AllDigits(s[p..])
    ensures Run(s, p) == |s| - p
    decreases |s| - p
  {
    if p < |s| {
      assert s[p] == s[p..][0];
      assert s[p + 1..] == s[p..][1..];
      RunToEnd(s, p + 1);
    }
  }

  lemma FractionBack(s: string, micro: nat)
    requires micro < 1000000 && Holds(s, 19, FractionText(micro)) && |s| == 19 + |FractionText(micro)|
    ensures ParseFraction(s) == Some(micro)
  {
    Pows();
    if micro > 0 {
      var frac := Stripped(Pad(micro, 6));
      StrippedValue(Pad(micro, 6));
      assert frac != "";
      Halves(s, 19, ".", frac);
      CharAt(s, 19, '.');
      assert s[20..] == frac;
      RunToEnd(s, 20);
      assert s[20..20 + |frac|] == frac;
    }
  }

  // Parsing what was formatted gives back the instant exactly for the years 1 to 9999; others do not parse
  lemma RoundTrip(micros: int)
    ensures ParseUtc(FormatUtc(micros)) == if 1 <= MomentOf(micros).date.year <= 9999 then Some(micros) else None
  {
    MomentBack(FormatUtc(micros), MomentOf(micros));
  }

  lemma MomentBack(s: string, m: Moment)
    requires Proper(m) && s == MomentText(m)
    ensures ParseMoment(s) == if 1 <= m.date.year <= 9999 then Some(m) else None
  {
    var d, t, f := DateText(m.date), TimeText(m.second), FractionText(m.micro);
    assert s[0..0 + |s|] == s;
    Halves(s, 0, d + " " + t, f);
    Halves(s, 0, d + " ", t);
    Halves(s, 0, d, " ");
    DateBack(s, m.date);
    if 1 <= m.date.year <= 9999 {
      CharAt(s, 10, ' ');
      TimeBack(s, m.second);
      FractionBack(s, m.micro);
    }
  }

  // ---------------------------------------------------------------------------
  // What texts mean
  // ---------------------------------------------------------------------------

  // A C string has no terminator inside
  ghost predicate CString(s: string) {
    forall i :: 0 <= i < |s| ==> s[i] != '\0'
  }

  ghost function YearMonthDay(t: Date): string
    requires Valid(t) && t.year >= 0
  {
    Pad(t.year, 4) + "-" + Pad(t.month, 2) + "-" + Pad(t.day, 2)
  }

  // Blank or T, hours, minutes, seconds, and up to six digits of a fraction, any number of zeros at its end
  ghost predicate ClockDenotes(s: string, second: nat, micro: nat, sep: char, h: nat, m: nat, c: nat, f: string) {
    && (sep == ' ' || sep == 'T') && h <= 23 && m <= 59 && c <= 59 && AllDigits(f) && |f| <= 6
    && s == [sep] + Clock(h, m, c) + (if f == "" then "" else "." + f)
    && second == 3600 * h + 60 * m + c && micro == Number(f) * Pow10(6 - |f|)
  }

  // A date alone is its midnight
  ghost predicate Denotes(s: string, m: Moment) {
    && Valid(m.date) && 1 <= m.date.year <= 9999
    && YearMonthDay(m.date) <= s
    && var rest := s[|YearMonthDay(m.date)|..];
       || (rest == "" && m.second == 0 && m.micro == 0)
       || exists sep, h, mi, c, f :: ClockDenotes(rest, m.second, m.micro, sep, h, mi, c, f)
  }

  lemma DateSame(t: Date)
    requires Valid(t) && 1 <= t.year <= 9999
    ensures DateText(t) == YearMonthDay(t) && |YearMonthDay(t)| == 10
  {
    Pows();
  }

  lemma FractionAny(s: string, f: string)
    requires AllDigits(f) && |f| <= 6 && |s| >= 19 && s[19..] == (if f == "" then "" else "." + f)
    ensures ParseFraction(s) == Some(Number(f) * Pow10(6 - |f|))
  {
    if f != "" {
      assert s[19] == s[19..][0] && s[20..] == s[19..][1..] == f;
      RunToEnd(s, 20);
      assert s[20..20 + |f|] == f && At(s, 19) == '.' && At(s, 20 + |f|) == '\0';
    }
  }

  // Every text of a moment is read as that moment
  lemma DenotedIsRead(s: string, m: Moment)
    requires Denotes(s, m)
    ensures ParseMoment(s) == Some(m)
  {
    DateDenoted(s, m.date);
    var rest := s[10..];
    if !(rest == "" && m.second == 0 && m.micro == 0) {
      var sep, h, mi, c, f :| ClockDenotes(rest, m.second, m.micro, sep, h, mi, c, f);
      ClockDenoted(s, m.second, m.micro, sep, h, mi, c, f);
    }
  }

  lemma ClockDenoted(s: string, second: nat, micro: nat, sep: char, h: nat, m: nat, c: nat, f: string)
    requires |s| >= 10 && ClockDenotes(s[10..], second, micro, sep, h, m, c, f)
    ensures (At(s, 10) == ' ' || At(s, 10) == 'T') && ParseTime(s) == Some(second) && ParseFraction(s) == Some(micro)
  {
    ClockRead(s, s[10..], sep, h, m, c, f);
    FractionAny(s, f);
  }

  lemma DateDenoted(s: string, t: Date)
    requires Valid(t) && 1 <= t.year <= 9999 && YearMonthDay(t) <= s
    ensures ParseDate(s) == Some(t) && |YearMonthDay(t)| == 10
  {
    DateSame(t);
    assert s[0..10] == YearMonthDay(t);
    DateBack(s, t);
  }

  lemma ClockRead(s: string, rest: string, sep: char, h: nat, m: nat, c: nat, f: string)
    requires |s| >= 10 && rest == s[10..] && h <= 23 && m <= 59 && c <= 59
    requires rest == [sep] + Clock(h, m, c) + (if f == "" then "" else "." + f)
    ensures ParseTime(s) == Some(3600 * h + 60 * m + c) && |s| >= 19 && s[10] == sep
    ensures s[19..] == if f == "" then "" else "." + f
  {
    Pows();
    assert |Clock(h, m, c)| == 8;
    assert s[11..19] == rest[1..9] == Clock(h, m, c);
    ClockBack(s, h, m, c);
    assert s[19..] == rest[9..];
  }

  // Digits are determined by how many they are and what they denote
  lemma {:induction false} DigitsUnique(x: string, y: string)
    requires AllDigits(x) && AllDigits(y) && |x| == |y| && Number(x) == Number(y)
    ensures x == y
  {
    if x != "" {
      var n := |x| - 1;
      DigitsUnique(x[..n], y[..n]);
      assert x == x[..n] + [x[n]] && y == y[..n] + [y[n]];
    }
  }

  lemma FieldIsPad(s: string, p: nat, n: nat)
    requires n > 0 && Field(s, p, n).Some?
    ensures p + n <= |s| && s[p..p + n] == Pad(Field(s, p, n).value, n)
  {
    FieldSize(s, p, n);
    DigitsUnique(s[p..p + n], Pad(Field(s, p, n).value, n));
  }

  lemma DateRead(s: string)
    requires ParseDate(s).Some?
    ensures var t := ParseDate(s).value;
            Valid(t) && 1 <= t.year <= 9999 && |YearMonthDay(t)| == 10 && YearMonthDay(t) <= s
  {
    var t := ParseDate(s).value;
    FieldIsPad(s, 0, 4);
    FieldIsPad(s, 5, 2);
    FieldIsPad(s, 8, 2);
    FieldSize(s, 0, 4);
    Pows();
    assert s[..10] == s[0..4] + [s[4]] + s[5..7] + [s[7]] + s[8..10];
    assert s[..10] == YearMonthDay(t);
  }

  lemma Joined(s: string, i: nat, j: nat, k: nat)
    requires i <= j <= k <= |s|
    ensures s[i..k] == s[i..j] + s[j..k]
  {
  }

  lemma TimeRead(s: string) returns (h: nat, m: nat, c: nat)
    requires ParseTime(s).Some?
    ensures h <= 23 && m <= 59 && c <= 59 && ParseTime(s).value == 3600 * h + 60 * m + c
    ensures |s| >= 19 && s[11..19] == Clock(h, m, c)
  {
    h, m, c := Field(s, 11, 2).value, Field(s, 14, 2).value, Field(s, 17, 2).value;
    FieldIsPad(s, 11, 2);
    FieldIsPad(s, 14, 2);
    FieldIsPad(s, 17, 2);
    assert s[13..14] == ":" && s[16..17] == ":";
    Joined(s, 11, 13, 14);
    Joined(s, 11, 14, 16);
    Joined(s, 11, 16, 17);
    Joined(s, 11, 17, 19);
  }

  lemma FractionRead(s: string) returns (f: string)
    requires CString(s) && |s| >= 19 && ParseFraction(s).Some?
    ensures AllDigits(f) && |f| <= 6 && s[19..] == (if f == "" then "" else "." + f)
    ensures ParseFraction(s).value == Number(f) * Pow10(6 - |f|)
  {
    if |s| == 19 {
      f := "";
    } else {
      var k := Run(s, 20);
      f := s[20..20 + k];
      assert |s| == 20 + k;
      assert s[19..] == "." + f;
    }
  }

  lemma ReadIsDenoted(s: string)
    requires CString(s) && ParseMoment(s).Some?
    ensures Denotes(s, ParseMoment(s).value)
  {
    var m := ParseMoment(s).value;
    DateRead(s);
    if |s| > 10 {
      var h, mi, c := TimeRead(s);
      var f := FractionRead(s);
      assert s[10..] == [s[10]] + s[11..19] + s[19..];
      assert ClockDenotes(s[10..], m.second, m.micro, s[10], h, mi, c, f);
    }
  }

  // A text is read as a moment exactly if it denotes it; every other text is refused
  lemma ParseMeans(s: string, m: Moment)
    requires CString(s)
    ensures ParseMoment(s) == Some(m) <==> Denotes(s, m)
  {
    if ParseMoment(s) == Some(m) { ReadIsDenoted(s); }
    if Denotes(s, m) { DenotedIsRead(s, m); }
  }

  // The text of an instant is the one of its texts with a blank and without zeros at the end of the fraction
  lemma FormatMeans(micros: int)
    requires 1 <= MomentOf(micros).date.year <= 9999
    ensures var text, m := FormatUtc(micros), MomentOf(micros);
            && Denotes(text, m) && Instant(m) == micros && |text| >= 19 && text[10] == ' '
            && (|text| > 19 ==> text[|text| - 1] != '0') && (m.micro == 0 ==> |text| == 19)
  {
    var m := MomentOf(micros);
    MomentShown(m);
  }

  lemma MomentShown(m: Moment)
    requires Proper(m) && 1 <= m.date.year <= 9999
    ensures var text := MomentText(m);
            && Denotes(text, m) && |text| >= 19 && text[10] == ' '
            && (|text| > 19 ==> text[|text| - 1] != '0') && (m.micro == 0 ==> |text| == 19)
  {
    var rest := " " + TimeText(m.second) + FractionText(m.micro);
    DateSame(m.date);
    RestShown(rest, m.second, m.micro);
    Behind(YearMonthDay(m.date), " ", TimeText(m.second), FractionText(m.micro));
    assert MomentText(m) == YearMonthDay(m.date) + rest;
  }

  lemma Behind(d: string, a: string, b: string, c: string)
    requires |d| == 10 && |a| == 1
    ensures var rest, text := a + b + c, d + a + b + c;
            && d + rest == text && |text| == 10 + |rest| && d <= text && text[10..] == rest && text[10] == rest[0]
            && text[|text| - 1] == rest[|rest| - 1]
  {
  }

  lemma RestShown(rest: string, second: nat, micro: nat)
    requires second < 86400 && micro < 1000000 && rest == " " + TimeText(second) + FractionText(micro)
    ensures exists sep, h, mi, c, f :: ClockDenotes(rest, second, micro, sep, h, mi, c, f)
    ensures |rest| >= 9 && (|rest| > 9 ==> rest[|rest| - 1] != '0') && (micro == 0 ==> |rest| == 9)
  {
    var f := if micro == 0 then "" else Stripped(Pad(micro, 6));
    FractionShown(micro, f);
    Sexagesimal(second);
    var h, mi, c := second / 3600, second % 3600 / 60, second % 60;
    ShortClock(h, mi, c);
    assert ClockDenotes(rest, second, micro, ' ', h, mi, c, f);
    if f != "" { assert rest[|rest| - 1] == f[|f| - 1]; }
  }

  // Years before 1 have a sign and at least three digits
  lemma SignedMeans(v: int)
    ensures v >= 0 ==> AllDigits(Signed(v, 4)) && Number(Signed(v, 4)) == v && |Signed(v, 4)| >= 4
    ensures v < 0 ==> |Signed(v, 4)| >= 4 && Signed(v, 4)[0] == '-'
    ensures v < 0 ==> AllDigits(Signed(v, 4)[1..]) && Number(Signed(v, 4)[1..]) == -v
    ensures -1000 < v < 10000 ==> |Signed(v, 4)| == 4
  {
    assert Pow10(3) == 1000 && Pow10(4) == 10000;
    if v < 0 { assert Signed(v, 4)[1..] == Pad(-v, 3); }
  }

  lemma ShortClock(h: nat, m: nat, c: nat)
    requires h <= 23 && m <= 59 && c <= 59
    ensures |Clock(h, m, c)| == 8
  {
    Pows();
  }

  lemma FractionShown(micro: nat, f: string)
    requires micro < 1000000 && f == if micro == 0 then "" else Stripped(Pad(micro, 6))
    ensures AllDigits(f) && |f| <= 6 && Number(f) * Pow10(6 - |f|) == micro
    ensures FractionText(micro) == (if f == "" then "" else "." + f) && (f == "" <==> micro == 0)
    ensures f != "" ==> f[|f| - 1] != '0'
  {
    Pows();
    if micro > 0 { StrippedValue(Pad(micro, 6)); }
  }
}
