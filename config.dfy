/**
 * The command line of the synchronizer: four positional arguments (source
 * path, replica path, interval in seconds, log file path), the third a
 * positive 32-bit integer as int.TryParse reads it. Anything else ends the
 * program with the usage line and exit code 1, which here is a result value.
 */
module CommandLine {
  import opened Wrappers

  /** The validated command line. */
  datatype Config = Config(sourcePath: string, replicaPath: string, intervalSeconds: int, logFilePath: string)

  /** What Parse gives: the Config, or the usage line and the process exit code. */
  datatype ParseResult = Parsed(config: Config) | UsageError(message: string, exitCode: int)

  const Usage: string := "Usage: Folders_Sync.exe <sourcePath> <replicaPath> <intervalSeconds> <logFilePath>"

  const UsageExitCode: int := 1

  const Int32Min: int := -0x8000_0000

  const Int32Max: int := 0x7FFF_FFFF

  /** The white space int.TryParse skips around the number: tab, line feed, vertical tab, form feed, carriage return, space. */
  predicate IsWhite(ch: char)
  {
    ch == ' ' || '\t' <= ch <= '\r'
  }

  predicate IsDigit(ch: char)
  {
    '0' <= ch <= '9'
  }

  predicate AllWhite(s: string)
  {
    forall i :: 0 <= i < |s| ==> IsWhite(s[i])
  }

  predicate AllDigits(s: string)
  {
    forall i :: 0 <= i < |s| ==> IsDigit(s[i])
  }

  /** `s` without its leading white space. */
  function TrimStart(s: string): (t: string)
    ensures |t| <= |s| && t == s[|s| - |t|..]
    ensures AllWhite(s[..|s| - |t|])
    ensures t == [] || !IsWhite(t[0])
  {
    if s != [] && IsWhite(s[0]) then
      var t := TrimStart(s[1..]);
      assert s[..|s| - |t|] == [s[0]] + s[1..][..|s| - 1 - |t|];
      t
    else s
  }

  /** `s` without its trailing white space. */
  function TrimEnd(s: string): (t: string)
    ensures |t| <= |s| && t == s[..|t|]
    ensures AllWhite(s[|t|..])
    ensures t == [] || !IsWhite(t[|t| - 1])
  {
    if s != [] && IsWhite(s[|s| - 1]) then
      var t := TrimEnd(s[..|s| - 1]);
      assert s[|t|..] == s[..|s| - 1][|t|..] + [s[|s| - 1]];
      t
    else s
  }

  function Trim(s: string): string
  {
    TrimEnd(TrimStart(s))
  }

  /** The value of a string of decimal digits. */
  function DigitsValue(s: string): (n: nat)
    requires AllDigits(s)
  {
    if s == [] then 0 else 10 * DigitsValue(s[..|s| - 1]) + (s[|s| - 1] - '0') as nat
  }

  /**
   * What int.TryParse reads from a string without surrounding white space:
   * an optional sign, at least one digit and nothing else, and a value that
   * fits in 32 bits.
   */
  function ReadSigned(t: string): (r: Option<int>)
    ensures r.Some? ==> Int32Min <= r.value <= Int32Max
  {
    var signed := t != [] && (t[0] == '+' || t[0] == '-');
    var digits := if signed then t[1..] else t;
    if digits == [] || !AllDigits(digits) then None
    else
      var v: int := if signed && t[0] == '-' then -(DigitsValue(digits) as int) else DigitsValue(digits);
      if Int32Min <= v <= Int32Max then Some(v) else None
  }

  /** int.TryParse with the integer number style: white space around the number is skipped. */
  function TryParseInt32(s: string): (r: Option<int>)
    ensures r.Some? ==> Int32Min <= r.value <= Int32Max
  {
    ReadSigned(Trim(s))
  }

  /**
   * Config.Parse: fewer than four arguments, or a third argument that is
   * not a positive integer, give the usage line with exit code 1; otherwise
   * the first four arguments become the Config and the rest are ignored.
   */
  function Parse(args: seq<string>): (r: ParseResult)
    ensures r.UsageError? ==> r.message == Usage && r.exitCode == UsageExitCode
    ensures r.Parsed? <==> |args| >= 4 && TryParseInt32(args[2]).Some? && TryParseInt32(args[2]).value > 0
    ensures r.Parsed? ==> 0 < r.config.intervalSeconds <= Int32Max
    ensures r.Parsed? ==> && r.config.sourcePath == args[0]
                          && r.config.replicaPath == args[1]
                          && Some(r.config.intervalSeconds) == TryParseInt32(args[2])
                          && r.config.logFilePath == args[3]
  {
    if |args| < 4 then UsageError(Usage, UsageExitCode)
    else
      match TryParseInt32(args[2])
      case None => UsageError(Usage, UsageExitCode)
      case Some(interval) =>
        if interval <= 0 then UsageError(Usage, UsageExitCode)
        else Parsed(Config(args[0], args[1], interval, args[3]))
  }

  /** The decimal digits of `n`, most significant first, without leading zeros. */
  function DecimalDigits(n: nat): (s: string)
    ensures s != [] && AllDigits(s)
  {
    if n < 10 then ['0' + n as char] else DecimalDigits(n / 10) + ['0' + (n % 10) as char]
  }

  /** How an integer is written in decimal: a minus sign for negative values, then its digits. */
  function FormatInt(n: int): string
  {
    if n < 0 then "-" + DecimalDigits(-n) else DecimalDigits(n)
  }

  /** Reading back the digits of a number gives the number. */
  lemma {:induction false} DigitsRoundTrip(n: nat)
    ensures DigitsValue(DecimalDigits(n)) == n
  {
    if n >= 10 {
      DigitsRoundTrip(n / 10);
      var s := DecimalDigits(n);
      assert s[..|s| - 1] == DecimalDigits(n / 10);
    }
  }

  /** Trimming leaves a string with no white space at either end as it is. */
  lemma TrimNothing(s: string)
    requires s == [] || (!IsWhite(s[0]) && !IsWhite(s[|s| - 1]))
    ensures Trim(s) == s
  {
  }

  /** Trimming removes exactly the white space put around a word. */
  lemma TrimAround(lead: string, s: string, trail: string)
    requires AllWhite(lead) && AllWhite(trail)
    requires s != [] && !IsWhite(s[0]) && !IsWhite(s[|s| - 1])
    ensures Trim(lead + s + trail) == s
  {
    assert lead + s + trail == lead + (s + trail);
    TrimStartAround(lead, s + trail);
    TrimEndAround(s, trail);
  }

  lemma {:induction false} TrimStartAround(lead: string, s: string)
    requires AllWhite(lead) && s != [] && !IsWhite(s[0])
    ensures TrimStart(lead + s) == s
  {
    if lead != [] {
      assert (lead + s)[1..] == lead[1..] + s;
      TrimStartAround(lead[1..], s);
    }
  }

  lemma {:induction false} TrimEndAround(s: string, trail: string)
    requires AllWhite(trail) && s != [] && !IsWhite(s[|s| - 1])
    ensures TrimEnd(s + trail) == s
  {
    if trail != [] {
      assert (s + trail)[..|s + trail| - 1] == s + trail[..|trail| - 1];
      TrimEndAround(s, trail[..|trail| - 1]);
    }
  }

  /** A number written in decimal starts with a minus sign or a digit and ends with a digit. */
  lemma FormatIntShape(n: int)
    ensures var s := FormatInt(n);
            && s != [] && !IsWhite(s[0]) && !IsWhite(s[|s| - 1]) && s[0] != '+'
            && (n < 0 ==> s[0] == '-' && s[1..] == DecimalDigits(-n))
            && (0 <= n ==> s == DecimalDigits(n) && s[0] != '-')
  {
    var s := FormatInt(n);
    if n < 0 {
      assert s[1..] == DecimalDigits(-n);
      assert s[|s| - 1] == DecimalDigits(-n)[|s| - 2];
    } else {
      assert IsDigit(s[0]) && IsDigit(s[|s| - 1]);
    }
  }

  /** What TryParseInt32 reads from the decimal form of `n`, once trimmed. */
  lemma ParseFormatted(n: int, input: string)
    requires Trim(input) == FormatInt(n)
    ensures TryParseInt32(input) == if Int32Min <= n <= Int32Max then Some(n) else None
  {
    if n < 0 {
      DigitsRoundTrip(-n);
      ReadSignDigits("-", DecimalDigits(-n));
    } else {
      DigitsRoundTrip(n);
      assert [] + DecimalDigits(n) == DecimalDigits(n);
      ReadSignDigits([], DecimalDigits(n));
    }
  }

  /**
   * Every 32-bit integer, written in decimal with any white space around
   * it, is read back as itself.
   */
  lemma ParseIntRoundTrip(n: int, lead: string, trail: string)
    requires Int32Min <= n <= Int32Max
    requires AllWhite(lead) && AllWhite(trail)
    ensures TryParseInt32(lead + FormatInt(n) + trail) == Some(n)
  {
    FormatIntShape(n);
    TrimAround(lead, FormatInt(n), trail);
    ParseFormatted(n, lead + FormatInt(n) + trail);
  }

  /** The decimal form of a number is read back as the number when it fits in 32 bits, and rejected otherwise. */
  lemma ParseIntExact(n: int)
    ensures TryParseInt32(FormatInt(n)) == if Int32Min <= n <= Int32Max then Some(n) else None
  {
    FormatIntShape(n);
    TrimNothing(FormatInt(n));
    ParseFormatted(n, FormatInt(n));
  }

  /** A sign int.TryParse accepts before the digits: none, plus or minus. */
  predicate IsSign(sign: string)
  {
    sign == [] || sign == ['+'] || sign == ['-']
  }

  /** The value of a sign followed by digits. */
  function SignedValue(sign: string, digits: string): int
    requires AllDigits(digits)
  {
    if sign == ['-'] then -(DigitsValue(digits) as int) else DigitsValue(digits)
  }

  /**
   * Regrouping four strings. Kept as a lemma of its own: stated inline in
   * ParseIntShape, next to the unfolded parser, the same equation costs the
   * solver far more.
   */
  lemma ConcatAssociates(a: string, b: string, c: string, d: string)
    ensures a + ((b + c) + d) == a + b + c + d
  {
  }

  /** A sign followed by digits is read as its signed value when that fits in 32 bits. */
  lemma ReadSignDigits(sign: string, digits: string)
    requires IsSign(sign) && digits != [] && AllDigits(digits)
    ensures var v := SignedValue(sign, digits);
            ReadSigned(sign + digits) == if Int32Min <= v <= Int32Max then Some(v) else None
  {
    if sign == [] {
      assert sign + digits == digits;
      ReadDigits(digits);
    } else {
      ReadSignedDigits(sign[0], digits);
      assert sign + digits == [sign[0]] + digits;
    }
  }

  lemma ReadDigits(digits: string)
    requires digits != [] && AllDigits(digits)
    ensures var v: int := DigitsValue(digits);
            ReadSigned(digits) == if v <= Int32Max then Some(v) else None
  {
    assert IsDigit(digits[0]);
  }

  lemma ReadSignedDigits(sign: char, digits: string)
    requires (sign == '+' || sign == '-') && digits != [] && AllDigits(digits)
    ensures var v: int := if sign == '-' then -(DigitsValue(digits) as int) else DigitsValue(digits);
            ReadSigned([sign] + digits) == if Int32Min <= v <= Int32Max then Some(v) else None
  {
    assert ([sign] + digits)[1..] == digits;
  }

  /**
   * Every string of the shape int.TryParse accepts (white space, an optional
   * sign, digits, white space) is read as its signed value when that fits
   * in 32 bits, and rejected otherwise.
   */
  lemma ParseIntAccepts(lead: string, sign: string, digits: string, trail: string)
    requires AllWhite(lead) && AllWhite(trail) && IsSign(sign)
    requires digits != [] && AllDigits(digits)
    ensures var v := SignedValue(sign, digits);
            TryParseInt32(lead + sign + digits + trail) == if Int32Min <= v <= Int32Max then Some(v) else None
  {
    var w := sign + digits;
    assert lead + sign + digits + trail == lead + w + trail;
    assert IsDigit(digits[0]) && IsDigit(digits[|digits| - 1]);
    assert w[|w| - 1] == digits[|digits| - 1];
    assert !IsWhite(w[0]) by {
      if sign == [] { assert w[0] == digits[0]; } else { assert w[0] == sign[0]; }
    }
    TrimAround(lead, w, trail);
    ReadSignDigits(sign, digits);
  }

  /**
   * Every string TryParseInt32 accepts has that shape, and the number read
   * is the signed value of its digits.
   */
  lemma ParseIntShape(s: string) returns (lead: string, sign: string, digits: string, trail: string)
    requires TryParseInt32(s).Some?
    ensures s == lead + sign + digits + trail
    ensures AllWhite(lead) && AllWhite(trail) && IsSign(sign)
    ensures digits != [] && AllDigits(digits)
    ensures TryParseInt32(s).value == SignedValue(sign, digits)
  {
    lead, trail := TrimSplit(s);
    sign, digits := SignSplit(Trim(s));
    ConcatAssociates(lead, sign, digits, trail);
  }

  /** A string is its leading white space, its trimmed form and its trailing white space. */
  lemma TrimSplit(s: string) returns (lead: string, trail: string)
    ensures s == lead + (Trim(s) + trail)
    ensures AllWhite(lead) && AllWhite(trail)
  {
    var u := TrimStart(s);
    var t := TrimEnd(u);
    lead, trail := s[..|s| - |u|], u[|t|..];
    assert u == u[..|t|] + u[|t|..];
    assert s == s[..|s| - |u|] + s[|s| - |u|..];
  }

  /** A string ReadSigned accepts is a sign followed by digits. */
  lemma SignSplit(t: string) returns (sign: string, digits: string)
    requires ReadSigned(t).Some?
    ensures t == sign + digits && IsSign(sign)
    ensures digits != [] && AllDigits(digits)
    ensures ReadSigned(t).value == SignedValue(sign, digits)
  {
    if t[0] == '+' || t[0] == '-' {
      sign, digits := [t[0]], t[1..];
    } else {
      sign, digits := [], t;
    }
    assert t == sign + digits;
  }

  /** A string TryParseInt32 accepts holds only white space, digits and signs, so "1x" is rejected. */
  lemma ParseIntChars(s: string)
    requires TryParseInt32(s).Some?
    ensures forall i :: 0 <= i < |s| ==> IsWhite(s[i]) || IsDigit(s[i]) || s[i] == '+' || s[i] == '-'
  {
    var lead, sign, digits, trail := ParseIntShape(s);
    forall i | 0 <= i < |s| ensures IsWhite(s[i]) || IsDigit(s[i]) || s[i] == '+' || s[i] == '-' {
      var a, b, c := |lead|, |lead| + |sign|, |lead| + |sign| + |digits|;
      if i < a {
        assert s[i] == lead[i];
      } else if i < b {
        assert s[i] == sign[i - a];
      } else if i < c {
        assert s[i] == digits[i - b];
      } else {
        assert s[i] == trail[i - c];
      }
    }
  }

  /** A string without a single digit is not a number. */
  lemma ParseIntNeedsDigit(s: string)
    requires forall i :: 0 <= i < |s| ==> !IsDigit(s[i])
    ensures TryParseInt32(s) == None
  {
    var t := Trim(s);
    assert forall i :: 0 <= i < |t| ==> !IsDigit(t[i]) by {
      var u := TrimStart(s);
      assert forall i :: 0 <= i < |u| ==> u[i] == s[|s| - |u| + i];
      assert forall i :: 0 <= i < |t| ==> t[i] == u[i];
    }
    if t != [] && (t[0] == '+' || t[0] == '-') && |t| > 1 {
      assert !IsDigit(t[1..][0]);
    } else if t != [] {
      assert !IsDigit(t[0]);
    }
  }

  /** A command line of four arguments with a positive interval parses to exactly those values. */
  lemma ParseRoundTrip(source: string, replica: string, interval: int, log: string)
    requires 0 < interval <= Int32Max
    ensures Parse([source, replica, FormatInt(interval), log]) == Parsed(Config(source, replica, interval, log))
  {
    ParseIntExact(interval);
    ParsePositiveInterval(source, replica, FormatInt(interval), log, interval);
  }

  lemma ParsePositiveInterval(source: string, replica: string, text: string, log: string, interval: int)
    requires TryParseInt32(text) == Some(interval) && interval > 0
    ensures Parse([source, replica, text, log]) == Parsed(Config(source, replica, interval, log))
  {
  }

  /** Fewer than four arguments give the usage line and exit code 1. */
  lemma ParseRejectsShort(args: seq<string>)
    requires |args| < 4
    ensures Parse(args) == UsageError(Usage, 1)
  {
  }

  /** An interval of zero or less is rejected like a malformed one. */
  lemma ParseRejectsNonPositive(source: string, replica: string, interval: int, log: string)
    requires Int32Min <= interval <= 0
    ensures Parse([source, replica, FormatInt(interval), log]) == UsageError(Usage, 1)
  {
    ParseIntExact(interval);
  }

  /** Arguments after the fourth make no difference. */
  lemma ParseIgnoresExtra(args: seq<string>, extra: seq<string>)
    requires |args| >= 4
    ensures Parse(args + extra) == Parse(args)
  {
    assert (args + extra)[..4] == args[..4];
  }
}
