/** The timestamp codec of srtsync: `ts2ms` reads an `HH:MM:SS,mmm` clock text,
    `ms2ts` writes one, and `hms2ms` reads a loose duration such as `1h2m3s`.
    C's `uint32_t` is the subset type `u32`; the libc number readers `atoi` and
    `strtoul` are modelled by their behaviour on a run of decimal digits. */
module Clock {

  const TwoTo32: int := 0x1_0000_0000

  type u32 = x: int | 0 <= x < TwoTo32

  /** An integer reduced to `uint32_t`, as C's unsigned arithmetic does. */
  function Wrap32(x: int): u32 {
    x % TwoTo32
  }

  const MsPerHour: nat := 60 * 60 * 1000
  const MsPerMinute: nat := 60 * 1000
  const MsPerSecond: nat := 1000

  // ---------------------------------------------------------------------------
  // Decimal digits

  predicate IsDigit(c: char) {
    '0' <= c <= '9'
  }

  predicate AllDigits(s: string) {
    forall k :: 0 <= k < |s| ==> IsDigit(s[k])
  }

  function DigitValue(c: char): (d: nat)
    requires IsDigit(c)
    ensures d < 10
  {
    c as int - '0' as int
  }

  function DigitChar(d: nat): (c: char)
    requires d < 10
    ensures IsDigit(c) && DigitValue(c) == d
  {
    ('0' as int + d) as char
  }

  function Pow10(k: nat): (p: nat)
    ensures p >= 1
  {
    if k == 0 then 1 else 10 * Pow10(k - 1)
  }

  /** The value of a digit string read most significant digit first, as
      `atoi` and `strtoul` accumulate it. */
  function NumberValue(d: string): nat
    requires AllDigits(d)
  {
    if d == [] then 0 else NumberValue(d[..|d| - 1]) * 10 + DigitValue(d[|d| - 1])
  }

  /** The length of the longest prefix of `s` made of digits: where `atoi`
      and `strtoul` stop reading. */
  function DigitRun(s: string): (k: nat)
    ensures k <= |s| && AllDigits(s[..k])
    ensures k == |s| || !IsDigit(s[k])
  {
    if s == [] || !IsDigit(s[0]) then 0
    else
      var k' := DigitRun(s[1..]);
      assert forall j :: 1 <= j < 1 + k' ==> s[j] == s[1..][..k'][j - 1];
      1 + k'
  }

  /** The number `atoi` reads at the start of `s` when `s` begins with digits
      (zero when it does not). */
  function LeadingValue(s: string): nat {
    NumberValue(s[..DigitRun(s)])
  }

  /** `%0wu`: the decimal digits of `n`, left-padded with zeros to width `w`,
      never cut short when `n` needs more digits. */
  function Pad(n: nat, w: nat): (r: string)
    decreases n, w
    ensures AllDigits(r) && NumberValue(r) == n
    ensures |r| >= 1 && |r| >= w
    ensures 1 <= w && n < Pow10(w) ==> |r| == w
    ensures |r| > 1 && |r| > w ==> r[0] != '0'
  {
    if n < 10 && w <= 1 then
      [DigitChar(n)]
    else
      var w' := if w == 0 then 0 else w - 1;
      var front := Pad(n / 10, w');
      var r := front + [DigitChar(n % 10)];
      assert r[..|r| - 1] == front;
      assert 1 <= w && n < Pow10(w) ==> n / 10 < Pow10(w');
      assert |front| == 1 ==> NumberValue(front) == DigitValue(front[0]);
      r
  }

  lemma {:induction false} NumberValueBound(d: string)
    requires AllDigits(d)
    ensures NumberValue(d) < Pow10(|d|)
  {
    if d != [] {
      var front := d[..|d| - 1];
      NumberValueBound(front);
      assert NumberValue(front) + 1 <= Pow10(|front|);
      assert NumberValue(d) + 1 <= (NumberValue(front) + 1) * 10;
    }
  }

  /** When a digit string is followed by a non-digit (or by nothing),
      `atoi` reads exactly that string. */
  lemma {:induction false} DigitRunIs(s: string, k: nat)
    requires k <= |s| && AllDigits(s[..k])
    requires k == |s| || !IsDigit(s[k])
    ensures DigitRun(s) == k
  {
    if k > 0 {
      assert IsDigit(s[..k][0]);
      var t := s[1..];
      assert forall j :: 0 <= j < k - 1 ==> t[j] == s[..k][j + 1];
      assert k - 1 < |t| ==> t[k - 1] == s[k];
      DigitRunIs(t, k - 1);
    }
  }

  lemma LeadingValueOf(s: string, k: nat)
    requires k <= |s| && AllDigits(s[..k])
    requires k == |s| || !IsDigit(s[k])
    ensures LeadingValue(s) == NumberValue(s[..k])
  {
    DigitRunIs(s, k);
  }

  // ---------------------------------------------------------------------------
  // ts2ms

  /** A well-formed clock text: two-digit fields at offsets 0, 3 and 6, a
      three-digit field at offset 9, separators at 2, 5 and 8 that are not
      digits, and no digit right after the milliseconds. */
  predicate IsClockText(ts: string) {
    && |ts| >= 12
    && AllDigits(ts[0..2]) && !IsDigit(ts[2])
    && AllDigits(ts[3..5]) && !IsDigit(ts[5])
    && AllDigits(ts[6..8]) && !IsDigit(ts[8])
    && AllDigits(ts[9..12])
    && (|ts| == 12 || !IsDigit(ts[12]))
  }

  /** `ts2ms`: the four numbers read at offsets 0, 3, 6 and 9, scaled to
      milliseconds and summed in 32-bit unsigned arithmetic. On a
      well-formed clock text this is the exact millisecond count of the
      fields, without wrap-around. */
  function Ts2Ms(ts: string): (r: u32)
    requires |ts| >= 9
    ensures IsClockText(ts) ==>
      r == NumberValue(ts[0..2]) * MsPerHour + NumberValue(ts[3..5]) * MsPerMinute
         + NumberValue(ts[6..8]) * MsPerSecond + NumberValue(ts[9..12])
  {
    ClockTextSum(ts);
    Wrap32(LeadingValue(ts) * MsPerHour + LeadingValue(ts[3..]) * MsPerMinute
           + LeadingValue(ts[6..]) * MsPerSecond + LeadingValue(ts[9..]))
  }

  /** On a well-formed clock text the sum of the fields never reaches 2^32. */
  lemma ClockTextSum(ts: string)
    requires |ts| >= 9
    ensures IsClockText(ts) ==>
      Wrap32(LeadingValue(ts) * MsPerHour + LeadingValue(ts[3..]) * MsPerMinute
             + LeadingValue(ts[6..]) * MsPerSecond + LeadingValue(ts[9..]))
      == NumberValue(ts[0..2]) * MsPerHour + NumberValue(ts[3..5]) * MsPerMinute
         + NumberValue(ts[6..8]) * MsPerSecond + NumberValue(ts[9..12])
  {
    ClockFieldsRead(ts);
    if IsClockText(ts) {
      FieldSumFits(LeadingValue(ts), LeadingValue(ts[3..]), LeadingValue(ts[6..]), LeadingValue(ts[9..]));
    }
  }

  lemma FieldSumFits(h: nat, m: nat, s: nat, f: nat)
    requires h < 100 && m < 100 && s < 100 && f < 1000
    ensures Wrap32(h * MsPerHour + m * MsPerMinute + s * MsPerSecond + f)
         == h * MsPerHour + m * MsPerMinute + s * MsPerSecond + f
  {
  }

  /** What Ts2Ms needs about the fields of a well-formed clock text. */
  lemma ClockFieldsRead(ts: string)
    requires |ts| >= 9
    ensures IsClockText(ts) ==>
      && LeadingValue(ts) == NumberValue(ts[0..2]) < 100
      && LeadingValue(ts[3..]) == NumberValue(ts[3..5]) < 100
      && LeadingValue(ts[6..]) == NumberValue(ts[6..8]) < 100
      && LeadingValue(ts[9..]) == NumberValue(ts[9..12]) < 1000
  {
    if IsClockText(ts) {
      assert ts[..2] == ts[0..2];
      LeadingValueOf(ts, 2);
      assert ts[3..][..2] == ts[3..5];
      LeadingValueOf(ts[3..], 2);
      assert ts[6..][..2] == ts[6..8];
      LeadingValueOf(ts[6..], 2);
      assert ts[9..][..3] == ts[9..12];
      LeadingValueOf(ts[9..], 3);
      NumberValueBound(ts[0..2]);
      NumberValueBound(ts[3..5]);
      NumberValueBound(ts[6..8]);
      NumberValueBound(ts[9..12]);
    }
  }

  // ---------------------------------------------------------------------------
  // ms2ts

  datatype ClockFields = ClockFields(hours: nat, minutes: nat, seconds: nat, millis: nat)

  function Total(f: ClockFields): nat {
    f.hours * MsPerHour + f.minutes * MsPerMinute + f.seconds * MsPerSecond + f.millis
  }

  /** The divisions of `ms2ts`: hours, then the minutes, seconds and
      milliseconds left over. */
  function SplitClock(ms: nat): (f: ClockFields)
    ensures f.minutes < 60 && f.seconds < 60 && f.millis < 1000
    ensures Total(f) == ms
  {
    var h := ms / MsPerHour;
    var inHour := ms % MsPerHour;
    var m := inHour / MsPerMinute;
    var inMinute := inHour % MsPerMinute;
    ClockFields(h, m, inMinute / MsPerSecond, inMinute % MsPerSecond)
  }

  /** The text of `"%02u:%02u:%02u,%03u"`. */
  function Render(f: ClockFields): string {
    Pad(f.hours, 2) + ":" + Pad(f.minutes, 2) + ":" + Pad(f.seconds, 2) + "," + Pad(f.millis, 3)
  }

  function Min(a: int, b: int): int {
    if a < b then a else b
  }

  /** `ms2ts(buffer, bufsiz, ms)`: what `snprintf` leaves in a buffer of
      `bufsiz` bytes (before its terminating zero); the rendering is cut to
      `bufsiz - 1` characters, and nothing is written when `bufsiz` is 0. */
  function Ms2Ts(ms: u32, bufsiz: nat): (r: string)
    ensures |r| == if bufsiz == 0 then 0 else Min(bufsiz - 1, |Render(SplitClock(ms))|)
    ensures r <= Render(SplitClock(ms))
  {
    var full := Render(SplitClock(ms));
    if bufsiz == 0 then [] else full[..Min(bufsiz - 1, |full|)]
  }

  /** Below 100 hours the clock text has two-digit hours, so its fields sit
      at the fixed offsets; the fields are those of SplitClock. */
  lemma {:induction false} Ms2TsIsClockText(ms: u32, bufsiz: nat)
    requires ms < 100 * MsPerHour && bufsiz >= 13
    ensures IsClockText(Ms2Ts(ms, bufsiz)) && |Ms2Ts(ms, bufsiz)| == 12
    ensures var ts, f := Ms2Ts(ms, bufsiz), SplitClock(ms);
      && NumberValue(ts[0..2]) == f.hours && NumberValue(ts[3..5]) == f.minutes
      && NumberValue(ts[6..8]) == f.seconds && NumberValue(ts[9..12]) == f.millis
  {
    var f := SplitClock(ms);
    assert f.hours < 100;
    var hh, mm, ss, fff := Pad(f.hours, 2), Pad(f.minutes, 2), Pad(f.seconds, 2), Pad(f.millis, 3);
    assert |hh| == 2 && |mm| == 2 && |ss| == 2 && |fff| == 3;
    var ts := Render(f);
    assert ts == hh + ":" + mm + ":" + ss + "," + fff;
    assert |ts| == 12;
    assert Ms2Ts(ms, bufsiz) == ts;
    assert ts[0..2] == hh && ts[3..5] == mm && ts[6..8] == ss && ts[9..12] == fff;
    assert ts[2] == ':' && ts[5] == ':' && ts[8] == ',';
  }

  /** Round trip: a time below 100 hours written by `ms2ts` into the 13-byte
      buffers srtsync uses and read back by `ts2ms` is unchanged. */
  lemma {:induction false} ClockRoundTrip(ms: u32)
    requires ms < 100 * MsPerHour
    ensures Ts2Ms(Ms2Ts(ms, 13)) == ms
  {
    Ms2TsIsClockText(ms, 13);
  }

  /** `%02u` never cuts a wider number short: 123 is printed in full. */
  lemma PadWide()
    ensures Pad(123, 2) == "123"
  {
  }

  /** The zero fields of a whole number of hours. */
  lemma PadZeros()
    ensures Pad(0, 2) == "00" && Pad(0, 3) == "000"
  {
  }

  /** From 100 hours on the 13-byte buffer loses the last digit of the
      milliseconds. */
  lemma Ms2TsHundredHours()
    ensures Ms2Ts(100 * MsPerHour, 13) == "100:00:00,00"
  {
    assert SplitClock(100 * MsPerHour) == ClockFields(100, 0, 0, 0);
    PadZeros();
    assert Pad(100, 2) == "100";
    assert Render(ClockFields(100, 0, 0, 0)) == "100:00:00,000";
  }

  /** From 1000 hours it loses the last two. */
  lemma Ms2TsThousandHours()
    ensures Ms2Ts(1000 * MsPerHour, 13) == "1000:00:00,0"
  {
    assert SplitClock(1000 * MsPerHour) == ClockFields(1000, 0, 0, 0);
    PadZeros();
    assert Pad(1000, 2) == "1000";
    assert Render(ClockFields(1000, 0, 0, 0)) == "1000:00:00,000";
  }

  // ---------------------------------------------------------------------------
  // hms2ms

  /** What the `switch` of `hms2ms` makes of a number `n` followed by `c`:
      the `h`, `m` and `s` cases fall through into each other, so an hour is
      60 minutes of 60 seconds of 1000 milliseconds; any other character
      leaves the number as milliseconds. */
  function Scale(n: nat, c: char): nat {
    if c == 'h' || c == 'H' then n * (60 * 60 * 1000)
    else if c == 'm' || c == 'M' then n * (60 * 1000)
    else if c == 's' || c == 'S' then n * 1000
    else n
  }

  /** Where the token at the start of a non-empty duration text ends: after
      its digits and, unless the text ends there, the character after them. */
  function TokenEnd(s: string): (e: nat)
    requires s != []
    ensures 0 < e <= |s|
  {
    var k := DigitRun(s);
    if k == |s| then k else k + 1
  }

  /** The milliseconds the token at the start of a duration text stands for. */
  function TokenValue(s: string): nat
    requires s != []
  {
    var k := DigitRun(s);
    var n := NumberValue(s[..k]);
    if k == |s| then n else Scale(n, s[k])
  }

  /** The mathematical sum of the tokens of a duration text: each token is a
      run of digits (possibly empty) and, unless the text ends there, the one
      character after it, which scales the number and is skipped. */
  function Duration(s: string): nat
    decreases |s|
  {
    if s == [] then 0 else TokenValue(s) + Duration(s[TokenEnd(s)..])
  }

  /** Euclidean division by 2^32: a quotient and what `uint32_t` keeps. */
  lemma Divide32(x: int)
    ensures x == (x / TwoTo32) * TwoTo32 + Wrap32(x)
  {
  }

  /** The remainder is determined by any quotient that leaves one in range. */
  lemma Wrap32Of(x: int, q: int, r: int)
    requires x == q * TwoTo32 + r && 0 <= r < TwoTo32
    ensures Wrap32(x) == r
  {
  }

  /** A non-empty duration text is its first token and the text after it. */
  lemma DurationAt(hms: string, i: nat, n: nat, next: nat)
    requires i < |hms| && n == TokenValue(hms[i..]) && next == i + TokenEnd(hms[i..])
    ensures next <= |hms| && Duration(hms[i..]) == n + Duration(hms[next..])
  {
    assert hms[i..][TokenEnd(hms[i..])..] == hms[next..];
  }

  /** One pass of the loop of `hms2ms` up to the addition: `strtoul` reads
      the digits at `i`, then the `switch` scales the number by the character
      after them, which is stepped over. */
  method ReadToken(hms: string, i: nat) returns (n: nat, next: nat)
    requires i < |hms|
    ensures n == TokenValue(hms[i..]) && next == i + TokenEnd(hms[i..])
  {
    ghost var rest := hms[i..];
    var k := DigitRun(hms[i..]);
    n := NumberValue(hms[i..][..k]);
    next := i + k;
    if next < |hms| {
      assert rest[k] == hms[next];
      var c := hms[next];
      if c == 'h' || c == 'H' {
        n := n * 60;
      }
      if c == 'h' || c == 'H' || c == 'm' || c == 'M' {
        n := n * 60;
      }
      if c == 'h' || c == 'H' || c == 'm' || c == 'M' || c == 's' || c == 'S' {
        n := n * 1000;
      }
      next := next + 1;
    }
  }

  /** `hms2ms`: reads the duration text token by token, accumulating in a
      32-bit unsigned total. */
  method Hms2Ms(hms: string) returns (ms: u32)
    ensures ms == Wrap32(Duration(hms))
  {
    ms := 0;
    var i := 0;
    // the true sum so far and how many times it has wrapped around
    ghost var total, laps := 0, 0;
    while i < |hms|
      invariant 0 <= i <= |hms|
      invariant total == laps * TwoTo32 + ms
      invariant total + Duration(hms[i..]) == Duration(hms)
      decreases |hms| - i
    {
      var n, next := ReadToken(hms, i);
      DurationAt(hms, i, n, next);
      Divide32(ms + n);
      laps := laps + (ms + n) / TwoTo32;
      ms := Wrap32(ms + n);
      total := total + n;
      i := next;
    }
    assert hms[i..] == [];
    Wrap32Of(Duration(hms), laps, ms);
  }

  /** A token `<n><unit>` in front of a duration text adds `n` scaled by the
      unit, whatever follows. */
  lemma DurationToken(n: nat, unit: char, rest: string)
    requires !IsDigit(unit)
    ensures Duration(Pad(n, 1) + [unit] + rest) == Scale(n, unit) + Duration(rest)
  {
    var digits := Pad(n, 1);
    var s := digits + [unit] + rest;
    assert s[..|digits|] == digits;
    DigitRunIs(s, |digits|);
    assert s[|digits|] == unit;
    assert s[|digits| + 1..] == rest;
  }

  /** A bare number is read as milliseconds. */
  lemma DurationBare(n: nat)
    ensures Duration(Pad(n, 1)) == n
  {
    var digits := Pad(n, 1);
    assert digits[..|digits|] == digits;
    DigitRunIs(digits, |digits|);
  }

  /** The worked examples of the duration syntax. */
  lemma DurationOfHms()
    ensures Duration("1h2m3s") == 3723000
  {
    assert Pad(1, 1) == "1" && Pad(2, 1) == "2" && Pad(3, 1) == "3";
    assert "1h2m3s" == Pad(1, 1) + ['h'] + "2m3s";
    assert "2m3s" == Pad(2, 1) + ['m'] + "3s";
    assert "3s" == Pad(3, 1) + ['s'] + "";
    DurationToken(3, 's', "");
    assert Duration("3s") == 3000;
    DurationToken(2, 'm', "3s");
    assert Duration("2m3s") == 123000;
    DurationToken(1, 'h', "2m3s");
  }

  lemma DurationOfSeconds()
    ensures Duration("90s") == 90000
  {
    assert Pad(9, 0) == "9";
    assert Pad(90, 1) == "90";
    assert "90s" == Pad(90, 1) + ['s'] + "";
    DurationToken(90, 's', "");
  }

  lemma DurationOfBareNumber()
    ensures Duration("500") == 500
  {
    assert Pad(5, 0) == "5";
    assert Pad(50, 0) == "50";
    assert Pad(500, 1) == "500";
    DurationBare(500);
  }
}
