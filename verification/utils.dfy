/** The small helpers of src/utils.h and src/utils.cpp: `to_lower`, `constant_time_compare`,
    `http_date_string`, and the global log level with `log_level` and `debug_log`. */
module Utils {
  import opened Wrappers
  import opened Ascii
  import Time

  // ---------------------------------------------------------------------------
  // to_lower
  // ---------------------------------------------------------------------------

  /** `to_lower`: `tolower` applied to every character. */
  function ToLower(s: string): (r: string)
    ensures |r| == |s|
    ensures forall i | 0 <= i < |s| :: r[i] == LowerChar(s[i])
  {
    if |s| == 0 then "" else [LowerChar(s[0])] + ToLower(s[1..])
  }

  lemma {:induction false} ToLowerIdempotent(s: string)
    ensures ToLower(ToLower(s)) == ToLower(s)
  {
  }

  /** Lower-casing leaves no upper-case letter behind and touches nothing but letters. */
  lemma {:induction false} ToLowerLeavesNoUpper(s: string)
    ensures forall i | 0 <= i < |s| :: !IsUpper(ToLower(s)[i])
    ensures forall i | 0 <= i < |s| :: !IsUpper(s[i]) ==> ToLower(s)[i] == s[i]
  {
  }

  /** Text without upper-case letters is its own lower-case form. */
  lemma {:induction false} ToLowerKeepsLower(s: string)
    requires forall i | 0 <= i < |s| :: !IsUpper(s[i])
    ensures ToLower(s) == s
  {
    ToLowerLeavesNoUpper(s);
  }

  /** Two strings equal up to ASCII case. */
  predicate EqualsIgnoreCase(a: string, b: string) {
    ToLower(a) == ToLower(b)
  }

  // ---------------------------------------------------------------------------
  // constant_time_compare
  // ---------------------------------------------------------------------------

  /** `constant_time_compare`: ORs the XOR of every pair of bytes together, so the time taken
      does not depend on where the strings first differ; different lengths fail at once. */
  method ConstantTimeCompare(a: seq<bv8>, b: seq<bv8>) returns (same: bool)
    ensures same <==> a == b
    ensures |a| != |b| ==> !same
  {
    if |a| != |b| {
      return false;
    }
    var result: bv8 := 0;
    var i := 0;
    while i < |a|
      invariant 0 <= i <= |a|
      invariant result == 0 <==> a[..i] == b[..i]
    {
      assert a[..i + 1] == a[..i] + [a[i]] && b[..i + 1] == b[..i] + [b[i]];
      result := result | (a[i] ^ b[i]);
      i := i + 1;
    }
    assert a[..i] == a && b[..i] == b;
    return result == 0;
  }

  // ---------------------------------------------------------------------------
  // http_date_string: the IMF-fixdate of section 7.1.1.1 of RFC 7231
  // ---------------------------------------------------------------------------

  const DayNames: seq<string> := ["Sun", "Mon", "Tue", "Wed", "Thu", "Fri", "Sat"]
  const MonthNames: seq<string> :=
    ["Jan", "Feb", "Mar", "Apr", "May", "Jun", "Jul", "Aug", "Sep", "Oct", "Nov", "Dec"]

  /** Size of the `snprintf` buffer, terminating NUL included. */
  const DateBufferSize: nat := 50

  /** `http_date_string` on the fields `gmtime_r` produced: "" for a weekday or month out of
      range, otherwise the `snprintf` pattern "%s, %02d %s %04d %02d:%02d:%02d GMT", cut to what
      fits in the buffer. */
  function HttpDateString(t: Time.Tm): (r: string)
    ensures !(0 <= t.wday < 7 && 0 <= t.mon < 12) ==> r == ""
    ensures |r| < DateBufferSize
  {
    if !(0 <= t.wday < 7) || !(0 <= t.mon < 12) then ""
    else
      var full := Fixdate(DayNames[t.wday], ZeroPadded(t.mday, 2), MonthNames[t.mon],
                          ZeroPadded(t.year + 1900, 4), ZeroPadded(t.hour, 2),
                          ZeroPadded(t.min, 2), ZeroPadded(t.sec, 2));
      if |full| < DateBufferSize then full else full[..DateBufferSize - 1]
  }

  /** The `snprintf` pattern with its seven conversions already rendered. */
  function Fixdate(day: string, dd: string, mon: string, yyyy: string, hh: string, mm: string,
                   ss: string): string
  {
    day + ", " + dd + " " + mon + " " + yyyy + " " + hh + ":" + mm + ":" + ss + " GMT"
  }

  /** Where each rendered field lands when every field has its nominal width. */
  lemma {:induction false} FixdateLayout(day: string, dd: string, mon: string, yyyy: string, hh: string, mm: string,
                      ss: string)
    requires |day| == 3 && |dd| == 2 && |mon| == 3 && |yyyy| == 4
    requires |hh| == 2 && |mm| == 2 && |ss| == 2
    ensures var s := Fixdate(day, dd, mon, yyyy, hh, mm, ss);
      |s| == 29 && s[..3] == day && s[3..5] == ", " && s[5..7] == dd && s[7] == ' '
      && s[8..11] == mon && s[11] == ' ' && s[12..16] == yyyy && s[16] == ' '
      && s[17..19] == hh && s[19] == ':' && s[20..22] == mm && s[22] == ':'
      && s[23..25] == ss && s[25..] == " GMT"
  {
    var a := day + ", " + dd + " ";
    var b := mon + " " + yyyy + " ";
    var c := hh + ":" + mm + ":" + ss + " GMT";
    assert |a| == 8 && |b| == 9 && |c| == 12;
    assert Fixdate(day, dd, mon, yyyy, hh, mm, ss) == a + b + c;
    assert a[..3] == day && a[3..5] == ", " && a[5..7] == dd && a[7] == ' ';
    assert b[..3] == mon && b[3] == ' ' && b[4..8] == yyyy && b[8] == ' ';
    assert c[..2] == hh && c[2] == ':' && c[3..5] == mm && c[5] == ':' && c[6..8] == ss;
    assert c[8..] == " GMT";
  }

  /** The date fields an IMF-fixdate carries; `year` is the full year. */
  datatype DateFields = DateFields(wday: nat, mday: nat, mon: nat, year: nat,
                                   hour: nat, min: nat, sec: nat)

  function DayOfName(s: string): (r: Option<nat>)
    ensures r.Some? ==> r.value < 7 && DayNames[r.value] == s
  {
    if s == "Sun" then Some(0) else if s == "Mon" then Some(1) else if s == "Tue" then Some(2)
    else if s == "Wed" then Some(3) else if s == "Thu" then Some(4) else if s == "Fri" then Some(5)
    else if s == "Sat" then Some(6) else None
  }

  function MonthOfName(s: string): (r: Option<nat>)
    ensures r.Some? ==> r.value < 12 && MonthNames[r.value] == s
  {
    if s == "Jan" then Some(0) else if s == "Feb" then Some(1) else if s == "Mar" then Some(2)
    else if s == "Apr" then Some(3) else if s == "May" then Some(4) else if s == "Jun" then Some(5)
    else if s == "Jul" then Some(6) else if s == "Aug" then Some(7) else if s == "Sep" then Some(8)
    else if s == "Oct" then Some(9) else if s == "Nov" then Some(10) else if s == "Dec" then Some(11)
    else None
  }

  /** Reads a fixed-layout IMF-fixdate "Ddd, DD Mon YYYY HH:MM:SS GMT" back into its fields. */
  function ParseImfFixdate(s: string): Option<DateFields> {
    if |s| != 29 || s[3..5] != ", " || s[7] != ' ' || s[11] != ' ' || s[16] != ' '
       || s[19] != ':' || s[22] != ':' || s[25..] != " GMT"
       || !AllDigits(s[5..7]) || !AllDigits(s[12..16]) || !AllDigits(s[17..19])
       || !AllDigits(s[20..22]) || !AllDigits(s[23..25])
    then None
    else match (DayOfName(s[..3]), MonthOfName(s[8..11]))
      case (Some(d), Some(m)) =>
        Some(DateFields(d, DecimalValue(s[5..7]), m, DecimalValue(s[12..16]),
                        DecimalValue(s[17..19]), DecimalValue(s[20..22]), DecimalValue(s[23..25])))
      case _ => None
  }

  lemma {:induction false} DayNamesRoundTrip(i: nat)
    requires i < 7
    ensures DayOfName(DayNames[i]) == Some(i)
  {
  }

  lemma {:induction false} MonthNamesRoundTrip(i: nat)
    requires i < 12
    ensures MonthOfName(MonthNames[i]) == Some(i)
  {
    if i < 6 {
    } else {
    }
  }

  /** For the field ranges `gmtime` produces for years 0 to 9999 the formatter writes all 29
      characters, and reading them back gives the fields again. */
  lemma {:induction false} HttpDateReadsBack(t: Time.Tm)
    requires 0 <= t.wday < 7 && 0 <= t.mon < 12
    requires 0 <= t.mday < 100 && 0 <= t.year + 1900 < 10000
    requires 0 <= t.hour < 100 && 0 <= t.min < 100 && 0 <= t.sec < 100
    ensures |HttpDateString(t)| == 29
    ensures ParseImfFixdate(HttpDateString(t))
            == Some(DateFields(t.wday, t.mday, t.mon, t.year + 1900, t.hour, t.min, t.sec))
  {
    var day, dd, mon := DayNames[t.wday], ZeroPadded(t.mday, 2), MonthNames[t.mon];
    var yyyy, hh := ZeroPadded(t.year + 1900, 4), ZeroPadded(t.hour, 2);
    var mm, ss := ZeroPadded(t.min, 2), ZeroPadded(t.sec, 2);
    ZeroPaddedReadsBack(t.mday, 2);
    ZeroPaddedReadsBack(t.year + 1900, 4);
    ZeroPaddedReadsBack(t.hour, 2);
    ZeroPaddedReadsBack(t.min, 2);
    ZeroPaddedReadsBack(t.sec, 2);
    DayNamesRoundTrip(t.wday);
    MonthNamesRoundTrip(t.mon);
    FixdateLayout(day, dd, mon, yyyy, hh, mm, ss);
    ParseLaidOut(day, dd, mon, yyyy, hh, mm, ss, Fixdate(day, dd, mon, yyyy, hh, mm, ss));
  }

  /** A string laid out as an IMF-fixdate from well-formed fields reads back as those fields. */
  lemma {:induction false} ParseLaidOut(day: string, dd: string, mon: string, yyyy: string,
                                        hh: string, mm: string, ss: string, s: string)
    requires DayOfName(day).Some? && MonthOfName(mon).Some?
    requires AllDigits(dd) && AllDigits(yyyy) && AllDigits(hh) && AllDigits(mm) && AllDigits(ss)
    requires |s| == 29 && s[..3] == day && s[3..5] == ", " && s[5..7] == dd && s[7] == ' '
      && s[8..11] == mon && s[11] == ' ' && s[12..16] == yyyy && s[16] == ' '
      && s[17..19] == hh && s[19] == ':' && s[20..22] == mm && s[22] == ':'
      && s[23..25] == ss && s[25..] == " GMT"
    ensures ParseImfFixdate(s)
            == Some(DateFields(DayOfName(day).value, DecimalValue(dd), MonthOfName(mon).value,
                               DecimalValue(yyyy), DecimalValue(hh), DecimalValue(mm),
                               DecimalValue(ss)))
  {
  }

  // ---------------------------------------------------------------------------
  // log level
  // ---------------------------------------------------------------------------

  /** The `LogLevel` enumeration, in declaration order. */
  datatype LogLevel = Off | Error | Warn | Info | Debug

  function Rank(l: LogLevel): nat {
    match l
    case Off => 0
    case Error => 1
    case Warn => 2
    case Info => 3
    case Debug => 4
  }

  /** The level a fresh process starts at. */
  const DefaultLevel: LogLevel := Error

  function LevelName(l: LogLevel): string {
    match l
    case Off => "OFF"
    case Error => "ERROR"
    case Warn => "WARN"
    case Info => "INFO"
    case Debug => "DEBUG"
  }

  function LevelOfName(s: string): (r: Option<LogLevel>)
    ensures r.Some? ==> LevelName(r.value) == s
  {
    if s == "OFF" then Some(Off)
    else if s == "ERROR" then Some(Error)
    else if s == "WARN" then Some(Warn)
    else if s == "INFO" then Some(Info)
    else if s == "DEBUG" then Some(Debug)
    else None
  }

  lemma {:induction false} LevelNameRoundTrip(l: LogLevel)
    ensures LevelOfName(LevelName(l)) == Some(l)
  {
  }

  /** `log_level(level)` with the global passed in: the new global and the returned name of the
      previous level, or the `Rcpp::stop` for a name it does not know (the global is then left
      as it was, since the error is raised before any assignment). */
  function SetLogLevel(current: LogLevel, level: string): (r: Result<(LogLevel, string)>)
    ensures level == "" ==> r == Ok((current, LevelName(current)))
    ensures r.Err? <==> level != "" && LevelOfName(level).None?
    ensures r.Ok? ==> r.value.1 == LevelName(current)
    ensures r.Ok? && level != "" ==> LevelName(r.value.0) == level
  {
    if level == "" then Ok((current, LevelName(current)))
    else match LevelOfName(level)
      case Some(l) => Ok((l, LevelName(current)))
      case None => Err("Unknown value for `level`")
  }

  /** Setting a level and then querying with "" reports the level just set. */
  lemma {:induction false} SetThenQuery(current: LogLevel, l: LogLevel)
    ensures SetLogLevel(current, LevelName(l)).Ok?
    ensures SetLogLevel(SetLogLevel(current, LevelName(l)).value.0, "").value.1 == LevelName(l)
  {
    LevelNameRoundTrip(l);
  }

  /** `debug_log`: the line written to the error stream, if any. */
  function DebugLog(current: LogLevel, msg: string, level: LogLevel): (line: Option<string>)
    ensures line.Some? <==> Rank(current) >= Rank(level)
    ensures line.Some? ==> line.value == msg + "\n"
  {
    if Rank(current) >= Rank(level) then Some(msg + "\n") else None
  }

  /** `Off` silences everything but an `Off` message; `Debug` lets everything through. */
  lemma {:induction false} DebugLogExtremes(msg: string, level: LogLevel)
    ensures level != Off ==> DebugLog(Off, msg, level).None?
    ensures DebugLog(Debug, msg, level).Some?
  {
  }
}
