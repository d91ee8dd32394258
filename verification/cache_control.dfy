/** The crawl cool-down: from the `Cache-Control` values of a feed response
    to the moment before which the feed is not fetched again.

    The directives meant are `max-age` (section 5.2.2.1 of RFC 9111) and
    `s-maxage` (section 5.2.2.10 of RFC 9111), but the computation here is
    the bot's own: each whole header value is split on `=`, so only a value
    holding exactly one `=` is looked at; the key compared is `s-max-age`;
    a number that does not parse counts as the default of six hours; a later
    value for the same key replaces an earlier one. */
module CacheControl {
  import opened Common

  /** The default and ceiling of the cool-down, in seconds (six hours). */
  const DefaultCache: int := 21600

  const MaxInt64: int := 0x7FFF_FFFF_FFFF_FFFF
  const MinInt64: int := -0x8000_0000_0000_0000

  // ---------------------------------------------------------------------
  // String helpers with the semantics of Go's strings and strconv packages
  // ---------------------------------------------------------------------

  /** `strings.Split(s, sep)` for a one-character separator: the pieces
      between separators, the empty string included. */
  function Split(s: string, sep: char): (parts: seq<string>)
    ensures |parts| >= 1
  {
    if s == [] then [[]]
    else if s[0] == sep then [[]] + Split(s[1..], sep)
    else
      var rest := Split(s[1..], sep);
      [[s[0]] + rest[0]] + rest[1..]
  }

  /** A string without the separator splits into itself alone. */
  lemma {:induction false} SplitNoSeparator(s: string, sep: char)
    requires sep !in s
    ensures Split(s, sep) == [s]
  {
    if s != [] {
      SplitNoSeparator(s[1..], sep);
      assert s == [s[0]] + s[1..];
    }
  }

  /** Splitting at the first separator: the key before it, then the pieces
      of the rest. */
  lemma {:induction false} SplitAtFirst(key: string, sep: char, rest: string)
    requires sep !in key
    ensures Split(key + [sep] + rest, sep) == [key] + Split(rest, sep)
  {
    if key != [] {
      SplitAtFirst(key[1..], sep, rest);
      assert key + [sep] + rest == [key[0]] + (key[1..] + [sep] + rest);
      assert key == [key[0]] + key[1..];
    } else {
      assert key + [sep] + rest == [sep] + rest;
    }
  }

  /** `key=value` with no other `=` splits into exactly those two parts. */
  lemma SplitPair(key: string, value: string)
    requires '=' !in key && '=' !in value
    ensures Split(key + "=" + value, '=') == [key, value]
  {
    SplitAtFirst(key, '=', value);
    SplitNoSeparator(value, '=');
  }

  function Count(s: string, c: char): nat {
    if s == [] then 0 else (if s[0] == c then 1 else 0) + Count(s[1..], c)
  }

  /** Split yields one piece more than there are separators, so a value
      splits into exactly two parts iff it holds exactly one `=`. */
  lemma {:induction false} SplitCount(s: string, sep: char)
    ensures |Split(s, sep)| == Count(s, sep) + 1
  {
    if s != [] {
      SplitCount(s[1..], sep);
    }
  }

  /** Lower-casing of one character; only ASCII letters change. */
  function LowerChar(c: char): char {
    if 'A' <= c <= 'Z' then (c as int + 32) as char else c
  }

  function Lower(s: string): (r: string)
    ensures |r| == |s|
  {
    seq(|s|, i requires 0 <= i < |s| => LowerChar(s[i]))
  }

  predicate IsDigit(c: char) {
    '0' <= c <= '9'
  }

  function DigitValue(c: char): int
    requires IsDigit(c)
  {
    c as int - '0' as int
  }

  predicate AllDigits(d: string) {
    forall i :: 0 <= i < |d| ==> IsDigit(d[i])
  }

  /** The value of a run of decimal digits. */
  function DigitsValue(d: string): int
    requires AllDigits(d)
  {
    if d == [] then 0
    else DigitsValue(d[..|d| - 1]) * 10 + DigitValue(d[|d| - 1])
  }

  /** `strconv.ParseInt(s, 10, 64)`: an optional sign, at least one decimal
      digit and nothing else, and a value that fits 64 signed bits. */
  function ParseInt64(s: string): (r: Option<int>)
    ensures r.Some? ==> MinInt64 <= r.value <= MaxInt64
  {
    if s == [] then None
    else
      var digits := if s[0] == '+' || s[0] == '-' then s[1..] else s;
      if digits == [] || !AllDigits(digits) then None
      else
        var v := if s[0] == '-' then -DigitsValue(digits) else DigitsValue(digits);
        if MinInt64 <= v <= MaxInt64 then Some(v) else None
  }

  /** A string starting with anything but a sign or a digit does not parse. */
  lemma NotANumber(s: string)
    requires s != [] && !IsDigit(s[0]) && s[0] != '+' && s[0] != '-'
    ensures ParseInt64(s) == None
  {
    assert !AllDigits(s);
  }

  /** The bot's `parseInt64OrDefault`. */
  function ParseInt64OrDefault(s: string, default: int): int {
    match ParseInt64(s)
    case Some(v) => v
    case None => default
  }

  /** The bot's `min`. */
  function Min(a: int, b: int): (m: int)
    ensures m <= a && m <= b && (m == a || m == b)
  {
    if a > b then b else a
  }

  // ---------------------------------------------------------------------
  // The cool-down computation
  // ---------------------------------------------------------------------

  /** The two directive values the scan keeps; zero means "not seen". */
  datatype Ages = Ages(maxAge: int, sMaxAge: int)

  /** True when a header value holds exactly one `=` and the part before
      it lower-cases to `key`. */
  predicate IsDirective(value: string, key: string) {
    var parts := Split(value, '=');
    |parts| == 2 && Lower(parts[0]) == key
  }

  /** The number a directive carries, or the default when it does not parse. */
  function DirectiveSeconds(value: string): int
    requires |Split(value, '=')| == 2
  {
    ParseInt64OrDefault(Split(value, '=')[1], DefaultCache)
  }

  /** The effect of one header value on the scan. */
  function Step(ages: Ages, value: string): Ages {
    if IsDirective(value, "max-age") then ages.(maxAge := DirectiveSeconds(value))
    else if IsDirective(value, "s-max-age") then ages.(sMaxAge := DirectiveSeconds(value))
    else ages
  }

  /** The scan over all header values, in order. */
  function Scan(values: seq<string>): Ages {
    if values == [] then Ages(0, 0)
    else Step(Scan(values[..|values| - 1]), values[|values| - 1])
  }

  /** The chosen interval: a positive max-age capped at the default, else a
      positive s-max-age capped at the default, else the default. */
  function CoolDown(ages: Ages): (seconds: int)
    ensures 0 < seconds <= DefaultCache
    ensures ages.maxAge > 0 ==> seconds == Min(DefaultCache, ages.maxAge)
    ensures ages.maxAge <= 0 && ages.sMaxAge > 0 ==> seconds == Min(DefaultCache, ages.sMaxAge)
    ensures ages.maxAge <= 0 && ages.sMaxAge <= 0 ==> seconds == DefaultCache
  {
    if ages.maxAge > 0 then Min(DefaultCache, ages.maxAge)
    else if ages.sMaxAge > 0 then Min(DefaultCache, ages.sMaxAge)
    else DefaultCache
  }

  function NotUntil(cacheControl: seq<string>, now: Time): Time {
    now + CoolDown(Scan(cacheControl))
  }

  /** The bot's `calculateNotUntil`: walks the `Cache-Control` values once,
      keeping the last max-age and s-max-age seen, then picks the interval.
      The result always lies in (now, now + six hours]. */
  method CalculateNotUntil(cacheControl: seq<string>, now: Time) returns (notUntil: Time)
    ensures notUntil == NotUntil(cacheControl, now)
    ensures now < notUntil <= now + DefaultCache
  {
    var maxAge, sMaxAge := 0, 0;
    for i := 0 to |cacheControl|
      invariant Ages(maxAge, sMaxAge) == Scan(cacheControl[..i])
    {
      assert cacheControl[..i + 1][..i] == cacheControl[..i];
      var parts := Split(cacheControl[i], '=');
      if |parts| != 2 {
        continue;
      }
      var k, v := parts[0], parts[1];
      var key := Lower(k);
      if key == "max-age" {
        maxAge := ParseInt64OrDefault(v, DefaultCache);
      } else if key == "s-max-age" {
        sMaxAge := ParseInt64OrDefault(v, DefaultCache);
      }
    }
    assert cacheControl[..|cacheControl|] == cacheControl;

    var seconds := DefaultCache;
    if maxAge > 0 {
      seconds := Min(seconds, maxAge);
    } else if sMaxAge > 0 {
      seconds := Min(seconds, sMaxAge);
    }
    notUntil := now + seconds;
  }

  // ---------------------------------------------------------------------
  // What the scan keeps
  // ---------------------------------------------------------------------

  /** Without a max-age value the scan's max-age stays 0. */
  lemma {:induction false} NoMaxAge(values: seq<string>)
    requires forall j :: 0 <= j < |values| ==> !IsDirective(values[j], "max-age")
    ensures Scan(values).maxAge == 0
  {
    if values != [] {
      var init := values[..|values| - 1];
      forall j | 0 <= j < |init| ensures !IsDirective(init[j], "max-age") {
        assert init[j] == values[j];
      }
      NoMaxAge(init);
    }
  }

  /** The scan's max-age is the number of the LAST max-age value: a later
      one overwrites an earlier one. */
  lemma {:induction false} LastMaxAgeWins(values: seq<string>, j: int)
    requires 0 <= j < |values| && IsDirective(values[j], "max-age")
    requires forall k :: j < k < |values| ==> !IsDirective(values[k], "max-age")
    ensures Scan(values).maxAge == DirectiveSeconds(values[j])
  {
    var last := |values| - 1;
    if j < last {
      var init := values[..last];
      assert init[j] == values[j];
      forall k | j < k < |init| ensures !IsDirective(init[k], "max-age") {
        assert init[k] == values[k];
      }
      LastMaxAgeWins(init, j);
    }
  }

  /** Without an s-max-age value the scan's s-max-age stays 0. */
  lemma {:induction false} NoSMaxAge(values: seq<string>)
    requires forall j :: 0 <= j < |values| ==> !IsDirective(values[j], "s-max-age")
    ensures Scan(values).sMaxAge == 0
  {
    if values != [] {
      var init := values[..|values| - 1];
      forall j | 0 <= j < |init| ensures !IsDirective(init[j], "s-max-age") {
        assert init[j] == values[j];
      }
      NoSMaxAge(init);
    }
  }

  /** The scan's s-max-age is the number of the LAST `s-max-age` value. */
  lemma {:induction false} LastSMaxAgeWins(values: seq<string>, j: int)
    requires 0 <= j < |values| && IsDirective(values[j], "s-max-age")
    requires forall k :: j < k < |values| ==> !IsDirective(values[k], "s-max-age")
    ensures Scan(values).sMaxAge == DirectiveSeconds(values[j])
  {
    var last := |values| - 1;
    if j < last {
      var init := values[..last];
      assert init[j] == values[j];
      forall k | j < k < |init| ensures !IsDirective(init[k], "s-max-age") {
        assert init[k] == values[k];
      }
      LastSMaxAgeWins(init, j);
    } else {
      assert !IsDirective(values[j], "max-age");
    }
  }

  /** A value that does not split into exactly two parts on `=` (a comma
      list of directives, a bare `no-cache`) leaves the scan unchanged. */
  lemma IgnoredValue(values: seq<string>, v: string)
    requires |Split(v, '=')| != 2
    ensures Scan(values + [v]) == Scan(values)
  {
    assert (values + [v])[..|values|] == values;
  }

  /** A positive max-age decides the interval whatever s-max-age says. */
  lemma MaxAgeTakesPrecedence(values: seq<string>, now: Time)
    requires Scan(values).maxAge > 0
    ensures NotUntil(values, now) == now + Min(DefaultCache, Scan(values).maxAge)
  {
  }

  // ---------------------------------------------------------------------
  // Worked cases
  // ---------------------------------------------------------------------

  lemma Digits100()
    ensures ParseInt64("100") == Some(100)
  {
    var d := "100";
    assert AllDigits(d);
    assert d[..2] == "10" && d[..2][..1] == "1" && "1"[..0] == "";
    assert DigitsValue("1") == 1;
    assert DigitsValue("10") == 10;
    assert DigitsValue(d) == 100;
  }

  lemma Digits99999()
    ensures ParseInt64("99999") == Some(99999)
  {
    var d := "99999";
    assert AllDigits(d);
    assert d[..4] == "9999" && "9999"[..3] == "999" && "999"[..2] == "99";
    assert "99"[..1] == "9" && "9"[..0] == "";
    assert DigitsValue("9") == 9;
    assert DigitsValue("99") == 99;
    assert DigitsValue("999") == 999;
    assert DigitsValue("9999") == 9999;
    assert DigitsValue(d) == 99999;
  }

  lemma Digits50()
    ensures ParseInt64("50") == Some(50)
  {
    var d := "50";
    assert AllDigits(d);
    assert d[..1] == "5" && "5"[..0] == "";
    assert DigitsValue("5") == 5;
    assert DigitsValue(d) == 50;
  }

  lemma LowerMaxAge()
    ensures Lower("max-age") == "max-age" && Lower("MAX-AGE") == "max-age"
    ensures Lower("s-max-age") == "s-max-age" && Lower("s-maxage") == "s-maxage"
  {
  }

  /** A scan over one value is one step from nothing seen. */
  lemma ScanSingle(v: string)
    ensures Scan([v]) == Step(Ages(0, 0), v)
  {
    assert [v][..0] == [];
  }

  /** A single value `key=n` whose key lower-cases to `max-age`: the scan
      keeps n's number, or the default when n does not parse. */
  lemma SingleMaxAge(key: string, n: string)
    requires '=' !in key && '=' !in n && Lower(key) == "max-age"
    ensures Scan([key + "=" + n]) == Ages(ParseInt64OrDefault(n, DefaultCache), 0)
  {
    SplitPair(key, n);
    ScanSingle(key + "=" + n);
  }

  /** `max-age=100` gives now + 100 seconds. */
  lemma MaxAge100(now: Time)
    ensures NotUntil(["max-age=100"], now) == now + 100
  {
    Digits100();
    LowerMaxAge();
    SingleMaxAge("max-age", "100");
    assert "max-age" + "=" + "100" == "max-age=100";
    assert Scan(["max-age=100"]) == Ages(100, 0);
  }

  /** No `Cache-Control` value at all gives now + six hours. */
  lemma NoCacheControl(now: Time)
    ensures NotUntil([], now) == now + 21600
  {
  }

  /** `max-age=99999` is capped at now + six hours. */
  lemma MaxAgeCapped(now: Time)
    ensures NotUntil(["max-age=99999"], now) == now + 21600
  {
    Digits99999();
    LowerMaxAge();
    SingleMaxAge("max-age", "99999");
    assert "max-age" + "=" + "99999" == "max-age=99999";
    assert Scan(["max-age=99999"]) == Ages(99999, 0);
  }

  /** A max-age that does not parse counts as the default, not as zero. */
  lemma UnparseableMaxAge(now: Time)
    ensures NotUntil(["max-age=soon"], now) == now + 21600
  {
    NotANumber("soon");
    LowerMaxAge();
    SingleMaxAge("max-age", "soon");
    assert "max-age" + "=" + "soon" == "max-age=soon";
    assert Scan(["max-age=soon"]) == Ages(DefaultCache, 0);
  }

  /** Directive keys are compared case-insensitively. */
  lemma UpperCaseKey(now: Time)
    ensures NotUntil(["MAX-AGE=100"], now) == now + 100
  {
    Digits100();
    LowerMaxAge();
    SingleMaxAge("MAX-AGE", "100");
    assert "MAX-AGE" + "=" + "100" == "MAX-AGE=100";
    assert Scan(["MAX-AGE=100"]) == Ages(100, 0);
  }

  /** The standard spelling `s-maxage` is not recognised: the default holds. */
  lemma StandardSMaxAgeIgnored(now: Time)
    ensures NotUntil(["s-maxage=50"], now) == now + 21600
  {
    SplitPair("s-maxage", "50");
    LowerMaxAge();
    assert "s-maxage" + "=" + "50" == "s-maxage=50";
    ScanSingle("s-maxage=50");
    assert Scan(["s-maxage=50"]) == Ages(0, 0);
  }

  /** A comma-separated list of directives in one value is ignored whole. */
  lemma DirectiveListIgnored(now: Time)
    ensures NotUntil(["max-age=100, s-max-age=50"], now) == now + 21600
  {
    var v := "max-age=100, s-max-age=50";
    assert v == "max-age" + "=" + ("100, s-max-age" + "=" + "50");
    var middle := "100, s-max-age";
    assert forall i :: 0 <= i < |middle| ==> middle[i] != '=';
    SplitPair(middle, "50");
    SplitAtFirst("max-age", '=', "100, s-max-age" + "=" + "50");
    assert |Split(v, '=')| == 3;
    IgnoredValue([], v);
    assert [] + [v] == [v];
  }

  /** A value `key=n` whose key lower-cases to `s-max-age` sets only the
      scan's s-max-age. */
  lemma StepSMaxAge(ages: Ages, key: string, n: string)
    requires '=' !in key && '=' !in n && Lower(key) == "s-max-age"
    ensures Step(ages, key + "=" + n) == ages.(sMaxAge := ParseInt64OrDefault(n, DefaultCache))
  {
    SplitPair(key, n);
    assert Lower(key) != "max-age" by {
      assert |"s-max-age"| != |"max-age"|;
    }
  }

  /** A scan over two values is two steps from nothing seen. */
  lemma ScanTwo(v: string, w: string)
    ensures Scan([v, w]) == Step(Step(Ages(0, 0), v), w)
  {
    assert [v, w][..1] == [v];
    ScanSingle(v);
  }

  /** `max-age=0` leaves nothing usable. */
  lemma ZeroMaxAge()
    ensures Step(Ages(0, 0), "max-age=0") == Ages(0, 0)
  {
    assert ParseInt64("0") == Some(0) by { assert "0"[..0] == ""; }
    LowerMaxAge();
    SplitPair("max-age", "0");
    assert "max-age" + "=" + "0" == "max-age=0";
  }

  /** `s-max-age=50` sets the s-max-age to 50. */
  lemma SMaxAge50()
    ensures Step(Ages(0, 0), "s-max-age=50") == Ages(0, 50)
  {
    Digits50();
    LowerMaxAge();
    StepSMaxAge(Ages(0, 0), "s-max-age", "50");
    assert "s-max-age" + "=" + "50" == "s-max-age=50";
  }

  /** With no usable max-age, s-max-age decides; a non-positive max-age is
      the same as none. */
  lemma SMaxAgeFallback(now: Time)
    ensures NotUntil(["max-age=0", "s-max-age=50"], now) == now + 50
  {
    ScanTwo("max-age=0", "s-max-age=50");
    ZeroMaxAge();
    SMaxAge50();
  }
}
