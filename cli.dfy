/** The command line of `main`: a run with `--sync` followed by the source
    folder, the replica folder, the interval in seconds and the log file name
    starts the synchronisation loop; any other run opens the window. The
    interval goes through Python's `int()` on a string. */
module CommandLine {
  import opened FileTree

  /** The whitespace `int()` strips from both ends of an ASCII argument: the
      controls TAB, LF, VT, FF and CR, and the space. */
  predicate IsSpace(c: char) {
    9 <= c as int <= 13 || c == ' '
  }

  predicate IsDigit(c: char) {
    '0' <= c <= '9'
  }

  function TrimLeft(s: string): (r: string)
    ensures |r| <= |s| && r == s[|s| - |r|..]
    ensures r == [] || !IsSpace(r[0])
  {
    if s != [] && IsSpace(s[0]) then TrimLeft(s[1..]) else s
  }

  function TrimRight(s: string): (r: string)
    ensures |r| <= |s| && r == s[..|r|]
    ensures r == [] || !IsSpace(r[|r| - 1])
  {
    if s != [] && IsSpace(s[|s| - 1]) then TrimRight(s[..|s| - 1]) else s
  }

  /** `s` with the whitespace at both ends removed. */
  function Strip(s: string): (r: string)
    ensures forall c :: c in r ==> c in s
    ensures r == [] || (!IsSpace(r[0]) && !IsSpace(r[|r| - 1]))
  {
    TrimRight(TrimLeft(s))
  }

  /** A string with no whitespace at either end is its own stripped form. */
  lemma StripTrimmed(s: string)
    requires s != [] && !IsSpace(s[0]) && !IsSpace(s[|s| - 1])
    ensures Strip(s) == s
  {
    assert TrimLeft(s) == s;
  }

  /** A run of decimal digits in which single underscores may separate two
      digits, as `int()` accepts it ("1_000", not "_1", "1_" or "1__0"). */
  predicate Grouped(s: string) {
    && |s| > 0
    && IsDigit(s[0])
    && IsDigit(s[|s| - 1])
    && (forall i :: 0 <= i < |s| ==> IsDigit(s[i]) || s[i] == '_')
    && (forall i, j :: 0 <= i < |s| && 0 <= j < |s| && j == i + 1 ==> s[i] != '_' || s[j] != '_')
  }

  /** `s` without its underscores. */
  function DropUnderscores(s: string): string {
    if s == [] then []
    else if s[|s| - 1] == '_' then DropUnderscores(s[..|s| - 1])
    else DropUnderscores(s[..|s| - 1]) + [s[|s| - 1]]
  }

  /** The number a string of decimal digits denotes. */
  function Value(ds: string): int {
    if ds == [] then 0 else Value(ds[..|ds| - 1]) * 10 + (ds[|ds| - 1] as int - '0' as int)
  }

  /** Python's `int(s)` in base 10: surrounding whitespace is ignored, a sign
      may come first, leading zeros are allowed; anything else raises
      `ValueError`, which is `None` here. */
  function ParseInt(s: string): (r: Option<int>)
    ensures r.Some? ==> Abs(r.value) < Pow10(MaxStrDigits)
  {
    ParseSigned(Strip(s))
  }

  /** `int()` after the whitespace is gone: an optional sign, then digits. */
  function ParseSigned(t: string): (r: Option<int>)
    ensures r.Some? ==> Abs(r.value) < Pow10(MaxStrDigits)
  {
    if t != [] && (t[0] == '+' || t[0] == '-') then
      match ParseDigits(t[1..])
      case Some(m) => Some(if t[0] == '-' then -m else m)
      case None => None
    else ParseDigits(t)
  }

  /** The digits after the sign, underscores allowed between two digits. A
      string of more than `MaxStrDigits` digits (underscores not counted) is
      refused. The number read is one `str()` can print. */
  function ParseDigits(u: string): (r: Option<int>)
    ensures r.Some? ==> 0 <= r.value < Pow10(MaxStrDigits)
  {
    if Grouped(u) && |DropUnderscores(u)| <= MaxStrDigits then
      GroupedValueBound(u);
      Pow10Monotone(|DropUnderscores(u)|, MaxStrDigits);
      Some(Value(DropUnderscores(u)))
    else None
  }

  /** CPython's default limit on the number of decimal digits `int()` reads
      and `str()` writes (`sys.int_info.default_max_str_digits`, in force
      since Python 3.11 and in the security releases of 3.7 to 3.10). */
  const MaxStrDigits: nat := 4300

  function Pow10(k: nat): (r: nat)
    ensures r >= 1
  {
    if k == 0 then 1 else 10 * Pow10(k - 1)
  }

  function Abs(n: int): nat {
    if n < 0 then -n else n
  }

  lemma {:induction false} Pow10Monotone(a: nat, b: nat)
    requires a <= b
    ensures Pow10(a) <= Pow10(b)
    decreases b
  {
    if a < b {
      Pow10Monotone(a, b - 1);
    }
  }

  /** A string of `k` digits denotes a number below 10^k. */
  lemma {:induction false} ValueBound(ds: string)
    requires forall i :: 0 <= i < |ds| ==> IsDigit(ds[i])
    ensures 0 <= Value(ds) < Pow10(|ds|)
    decreases |ds|
  {
    if ds != [] {
      ValueBound(ds[..|ds| - 1]);
    }
  }

  /** Dropping the underscores of a grouped string leaves only digits. */
  lemma {:induction false} DropLeavesDigits(s: string)
    requires forall i :: 0 <= i < |s| ==> IsDigit(s[i]) || s[i] == '_'
    ensures forall i :: 0 <= i < |DropUnderscores(s)| ==> IsDigit(DropUnderscores(s)[i])
    decreases |s|
  {
    if s != [] {
      DropLeavesDigits(s[..|s| - 1]);
    }
  }

  lemma GroupedValueBound(u: string)
    requires Grouped(u)
    ensures 0 <= Value(DropUnderscores(u)) < Pow10(|DropUnderscores(u)|)
  {
    DropLeavesDigits(u);
    ValueBound(DropUnderscores(u));
  }

  function DigitChar(d: int): (c: char)
    requires 0 <= d < 10
    ensures IsDigit(c) && c as int - '0' as int == d
  {
    ('0' as int + d) as char
  }

  function NatToString(n: nat): (s: string)
    ensures |s| > 0 && forall i :: 0 <= i < |s| ==> IsDigit(s[i])
  {
    if n < 10 then [DigitChar(n)] else NatToString(n / 10) + [DigitChar(n % 10)]
  }

  /** `str(n)` of an int: its decimal digits, after a minus sign when
      negative. This is how the window passes the interval on to `--sync`.
      `None` is the `ValueError` raised for more than `MaxStrDigits` digits,
      that is for |n| >= 10^4300. */
  function IntToString(n: int): (r: Option<string>)
    ensures r.Some? <==> Abs(n) < Pow10(MaxStrDigits)
  {
    NatToStringLength(Abs(n), MaxStrDigits);
    var d := NatToString(Abs(n));
    if |d| > MaxStrDigits then None
    else Some(if n < 0 then "-" + d else d)
  }

  /** `str(n)` has at most `k` digits exactly when n < 10^k. */
  lemma {:induction false} NatToStringLength(n: nat, k: nat)
    requires k >= 1
    ensures |NatToString(n)| <= k <==> n < Pow10(k)
    decreases n
  {
    if n >= 10 {
      assert |NatToString(n)| == |NatToString(n / 10)| + 1;
      if k > 1 {
        NatToStringLength(n / 10, k - 1);
        assert n / 10 < Pow10(k - 1) <==> n < 10 * Pow10(k - 1);
      }
    }
  }

  lemma {:induction false} NatToStringValue(n: nat)
    ensures Value(NatToString(n)) == n
    decreases n
  {
    var s := NatToString(n);
    if n >= 10 {
      NatToStringValue(n / 10);
      assert s[..|s| - 1] == NatToString(n / 10);
    }
  }

  lemma {:induction false} DigitsHaveNoUnderscores(s: string)
    requires forall i :: 0 <= i < |s| ==> IsDigit(s[i])
    ensures DropUnderscores(s) == s
    decreases |s|
  {
    if s != [] {
      DigitsHaveNoUnderscores(s[..|s| - 1]);
    }
  }

  /** A non-empty run of plain digits is grouped and denotes its value,
      unless it is longer than the limit. */
  lemma DigitsValue(d: string)
    requires d != [] && forall i :: 0 <= i < |d| ==> IsDigit(d[i])
    ensures ParseDigits(d) == if |d| <= MaxStrDigits then Some(Value(d)) else None
  {
    DigitsHaveNoUnderscores(d);
    assert Grouped(d);
  }

  /** A non-empty run of at most `MaxStrDigits` digits is read as the number
      it denotes; a longer one is refused. */
  lemma UnsignedDigits(d: string)
    requires d != [] && forall i :: 0 <= i < |d| ==> IsDigit(d[i])
    ensures ParseSigned(d) == if |d| <= MaxStrDigits then Some(Value(d)) else None
  {
    assert IsDigit(d[0]);
    DigitsValue(d);
  }

  /** A minus sign before a non-empty run of at most `MaxStrDigits` digits
      negates its value. */
  lemma NegatedDigits(d: string)
    requires d != [] && |d| <= MaxStrDigits && forall i :: 0 <= i < |d| ==> IsDigit(d[i])
    ensures ParseSigned("-" + d) == Some(-Value(d))
  {
    var t := "-" + d;
    assert t[0] == '-' && t[1..] == d;
    DigitsValue(d);
  }

  /** `int(str(n)) == n` for every int `n` that `str()` can print. */
  lemma ParseIntToString(n: int)
    ensures IntToString(n).Some? ==> ParseInt(IntToString(n).value) == Some(n)
  {
    var d := NatToString(Abs(n));
    if |d| <= MaxStrDigits {
      NatToStringValue(Abs(n));
      if n < 0 {
        var s := "-" + d;
        assert IntToString(n) == Some(s);
        assert s[0] == '-' && s[|s| - 1] == d[|d| - 1];
        StripTrimmed(s);
        NegatedDigits(d);
      } else {
        assert IntToString(n) == Some(d);
        StripTrimmed(d);
        UnsignedDigits(d);
      }
    }
  }

  /** The file separator 0x1C is not whitespace to `int()` on an ASCII
      string: "\U{1C}60" and the like are refused. */
  lemma SeparatorNotStripped(d: string)
    requires d != [] && forall i :: 0 <= i < |d| ==> IsDigit(d[i])
    ensures ParseInt(['\U{1C}'] + d) == None
  {
    var s := ['\U{1C}'] + d;
    assert s[0] == '\U{1C}' && s[|s| - 1] == d[|d| - 1];
    StripTrimmed(s);
    assert !Grouped(s);
  }

  /** `int()` refuses a run of more than `MaxStrDigits` digits, such as
      "1" followed by 4300 zeros. */
  lemma TooManyDigitsRejected(s: string)
    requires |s| > MaxStrDigits && forall i :: 0 <= i < |s| ==> IsDigit(s[i])
    ensures ParseInt(s) == None
  {
    StripTrimmed(s);
    UnsignedDigits(s);
  }

  /** `int()` needs at least one digit: the empty string, a lone sign or
      whitespace raise `ValueError`. */
  lemma ParseIntNeedsDigits(s: string)
    requires forall i :: 0 <= i < |s| ==> !IsDigit(s[i])
    ensures ParseInt(s) == None
  {
    var t := Strip(s);
    assert forall c :: c in t ==> !IsDigit(c);
    assert |t| <= 1 || !IsDigit(t[1..][0]);
  }

  /** What `main` does for the command line `argv` (the program name
      included): open the window, start synchronising, or report "Invalid
      arguments for synchronization." and exit with status 1. */
  datatype Invocation =
    | Gui
    | Sync(source: string, replica: string, interval: int, logFile: string)
    | InvalidArguments

  const SyncFlag := "--sync"

  /** `argv.index(x)`: the position of the first `x`. */
  function IndexOf(argv: seq<string>, x: string): (i: nat)
    requires x in argv
    ensures i < |argv| && argv[i] == x && x !in argv[..i]
  {
    if argv[0] == x then 0 else 1 + IndexOf(argv[1..], x)
  }

  /** The four values after the first `--sync`; a missing value
      (`IndexError`) or an interval `int()` refuses (`ValueError`) makes the
      arguments invalid. Anything after the fourth value is ignored. */
  function ParseArgs(argv: seq<string>): (r: Invocation)
    ensures r == Gui <==> SyncFlag !in argv
    ensures SyncFlag in argv && |argv| <= IndexOf(argv, SyncFlag) + 4 ==> r == InvalidArguments
  {
    if SyncFlag !in argv then Gui
    else
      var idx := IndexOf(argv, SyncFlag);
      if idx + 4 < |argv| then
        match ParseInt(argv[idx + 3])
        case Some(n) => Sync(argv[idx + 1], argv[idx + 2], n, argv[idx + 4])
        case None => InvalidArguments
      else InvalidArguments
  }

  lemma {:induction false} IndexAfterPrefix(prefix: seq<string>, x: string, rest: seq<string>)
    requires x !in prefix
    ensures x in prefix + [x] + rest && IndexOf(prefix + [x] + rest, x) == |prefix|
    decreases |prefix|
  {
    var argv := prefix + [x] + rest;
    assert argv[|prefix|] == x;
    if prefix != [] {
      assert argv[1..] == prefix[1..] + [x] + rest;
      IndexAfterPrefix(prefix[1..], x, rest);
    }
  }

  /** The command line the window builds (`--sync`, source, replica,
      `str(interval)`, log file) parses back to the same four values, whatever
      comes before it (as long as it holds no other `--sync`) and after it.
      When `str(interval)` raises, the window builds no command line. */
  lemma SyncRoundTrip(prefix: seq<string>, source: string, replica: string, interval: int, logFile: string, rest: seq<string>)
    requires SyncFlag !in prefix
    ensures IntToString(interval).Some? ==>
      ParseArgs(prefix + [SyncFlag, source, replica, IntToString(interval).value, logFile] + rest)
        == Sync(source, replica, interval, logFile)
  {
    if IntToString(interval).Some? {
      var text := IntToString(interval).value;
      var tail := [source, replica, text, logFile] + rest;
      var argv := prefix + [SyncFlag, source, replica, text, logFile] + rest;
      assert argv == prefix + [SyncFlag] + tail;
      IndexAfterPrefix(prefix, SyncFlag, tail);
      var idx := |prefix|;
      assert argv[idx + 1] == source && argv[idx + 2] == replica;
      assert argv[idx + 3] == text && argv[idx + 4] == logFile;
      ParseIntToString(interval);
    }
  }

  /** An interval `int()` refuses makes the whole command line invalid. */
  lemma BadIntervalRejected(prefix: seq<string>, source: string, replica: string, interval: string, logFile: string, rest: seq<string>)
    requires SyncFlag !in prefix && ParseInt(interval) == None
    ensures ParseArgs(prefix + [SyncFlag, source, replica, interval, logFile] + rest) == InvalidArguments
  {
    var tail := [source, replica, interval, logFile] + rest;
    assert prefix + [SyncFlag, source, replica, interval, logFile] + rest == prefix + [SyncFlag] + tail;
    IndexAfterPrefix(prefix, SyncFlag, tail);
  }
}
