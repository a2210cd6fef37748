/** String helpers the source takes from JavaScript: decimal `toString`,
    `split(' - ')`, `trim()`, the `\D` digit class and parsing of a
    wall-clock time "HH:MM". */
module Text {
  import opened Common

  predicate IsDigit(c: char) {
    '0' <= c <= '9'
  }

  predicate AllDigits(s: string) {
    forall i :: 0 <= i < |s| ==> IsDigit(s[i])
  }

  function DigitChar(d: nat): (c: char)
    requires d < 10
    ensures IsDigit(c)
  {
    (('0' as int) + d) as char
  }

  function DigitValue(c: char): (d: nat)
    requires IsDigit(c)
    ensures d < 10 && DigitChar(d) == c
  {
    (c as int) - ('0' as int)
  }

  function Pow10(k: nat): (p: nat)
    ensures p >= 1
  {
    if k == 0 then 1 else 10 * Pow10(k - 1)
  }

  /** `Number.prototype.toString()` for a non-negative integer. */
  function NatToString(n: nat): (s: string)
    ensures |s| > 0 && AllDigits(s)
    ensures |s| > 1 ==> s[0] != '0'
  {
    if n < 10 then [DigitChar(n)]
    else NatToString(n / 10) + [DigitChar(n % 10)]
  }

  /** The number a string of decimal digits denotes. */
  function DecimalValue(s: string): nat
    requires AllDigits(s)
  {
    if |s| == 0 then 0
    else DecimalValue(s[..|s| - 1]) * 10 + DigitValue(s[|s| - 1])
  }

  /** Reading back the decimal text of `n` gives `n`. */
  lemma {:induction false} DecimalRoundTrip(n: nat)
    ensures DecimalValue(NatToString(n)) == n
  {
    if n >= 10 {
      var s := NatToString(n);
      assert s[..|s| - 1] == NatToString(n / 10);
      DecimalRoundTrip(n / 10);
    }
  }

  /** A number with exactly `k` digits is written with `k` characters. */
  lemma {:induction false} NatToStringLength(n: nat, k: nat)
    requires k >= 1 && n < Pow10(k)
    requires k == 1 || Pow10(k - 1) <= n
    ensures |NatToString(n)| == k
  {
    if k == 1 {
      assert Pow10(1) == 10;
    } else {
      assert Pow10(k) == 10 * Pow10(k - 1);
      assert Pow10(k - 1) == 10 * Pow10(k - 2);
      assert n / 10 < Pow10(k - 1);
      assert k - 1 == 1 || Pow10(k - 2) <= n / 10;
      NatToStringLength(n / 10, k - 1);
    }
  }

  /** `s.replace(/\D/g, '')`: the decimal digits of `s`, in order. */
  function DigitsOf(s: string): (r: string)
    ensures AllDigits(r)
    ensures |r| <= |s|
    ensures AllDigits(s) ==> r == s
  {
    if |s| == 0 then ""
    else (if IsDigit(s[0]) then [s[0]] else "") + DigitsOf(s[1..])
  }

  /** Removing non-digits distributes over concatenation. */
  lemma {:induction false} DigitsOfAppend(a: string, b: string)
    ensures DigitsOf(a + b) == DigitsOf(a) + DigitsOf(b)
  {
    if |a| > 0 {
      assert (a + b)[0] == a[0] && (a + b)[1..] == a[1..] + b;
      DigitsOfAppend(a[1..], b);
    } else {
      assert a + b == b;
    }
  }

  // ---- split(' - ') -------------------------------------------------------

  /** The separator of the composite location label "hospital - sector". */
  const Sep: string := " - "

  predicate SepAt(s: string, i: int) {
    0 <= i && i + |Sep| <= |s| && s[i..i + |Sep|] == Sep
  }

  ghost predicate HasSep(s: string) {
    exists i :: SepAt(s, i)
  }

  function FirstSepFrom(s: string, from: nat): (r: Option<nat>)
    requires from <= |s|
    ensures r.Some? ==> from <= r.value && SepAt(s, r.value)
    ensures r.Some? ==> forall j :: from <= j < r.value ==> !SepAt(s, j)
    ensures r.None? ==> forall j :: from <= j ==> !SepAt(s, j)
    decreases |s| - from
  {
    if from + |Sep| > |s| then None
    else if SepAt(s, from) then Some(from)
    else FirstSepFrom(s, from + 1)
  }

  /** Where the leftmost separator starts, if there is one. */
  function FirstSep(s: string): (r: Option<nat>)
    ensures r.Some? ==> SepAt(s, r.value) && forall j :: 0 <= j < r.value ==> !SepAt(s, j)
    ensures r.None? <==> !HasSep(s)
  {
    FirstSepFrom(s, 0)
  }

  /** A prefix ending before the first separator holds none. */
  lemma PrefixBeforeSep(s: string, i: nat)
    requires i <= |s| && forall j :: 0 <= j < i ==> !SepAt(s, j)
    ensures !HasSep(s[..i])
  {
    var head := s[..i];
    forall j | 0 <= j ensures !SepAt(head, j) {
      if j + |Sep| <= |head| {
        assert head[j..j + |Sep|] == s[j..j + |Sep|];
        assert !SepAt(s, j);
      }
    }
  }

  /** `String.prototype.split(' - ')`: the pieces between separators, left to right. */
  function Split(s: string): (parts: seq<string>)
    ensures |parts| >= 1
    ensures forall k :: 0 <= k < |parts| ==> !HasSep(parts[k])
    ensures !HasSep(s) <==> parts == [s]
    ensures HasSep(s) ==> parts[0] == s[..FirstSep(s).value]
    decreases |s|
  {
    match FirstSep(s)
    case None => [s]
    case Some(i) =>
      var head := s[..i];
      PrefixBeforeSep(s, i);
      [head] + Split(s[i + |Sep|..])
  }

  /** `Array.prototype.join(' - ')`. */
  function Join(parts: seq<string>): string {
    if |parts| == 0 then ""
    else if |parts| == 1 then parts[0]
    else parts[0] + Sep + Join(parts[1..])
  }

  /** Splitting loses nothing: joining the pieces rebuilds the label. */
  lemma {:induction false} SplitJoin(s: string)
    ensures Join(Split(s)) == s
    decreases |s|
  {
    match FirstSep(s)
    case None =>
    case Some(i) =>
      var head, rest := s[..i], s[i + |Sep|..];
      SplitJoin(rest);
      assert Split(s) == [head] + Split(rest);
      JoinCons(head, Split(rest));
      SepAtSplits(s, i);
  }

  /** A separator at `i` cuts the text into what comes before and after it. */
  lemma SepAtSplits(s: string, i: nat)
    requires SepAt(s, i)
    ensures s == s[..i] + Sep + s[i + |Sep|..]
  {
    assert s[i..] == Sep + s[i + |Sep|..];
    assert s == s[..i] + s[i..];
  }

  /** Joining a head in front of a non-empty list puts one separator between them. */
  lemma JoinCons(head: string, parts: seq<string>)
    requires |parts| >= 1
    ensures Join([head] + parts) == head + Sep + Join(parts)
  {
    assert ([head] + parts)[1..] == parts;
  }

  /** `a + ' - ' + b` splits back into `a` and `b` when no separator starts
      inside `a` (not even one running into the joint) and `b` has none. */
  lemma SplitTwo(a: string, b: string)
    requires !HasSep(a + Sep[..2]) && !HasSep(b)
    ensures Split(a + Sep + b) == [a, b]
  {
    var s := a + Sep + b;
    var a2 := a + Sep[..2];
    assert s[|a|..|a| + |Sep|] == Sep;
    forall j | 0 <= j < |a| ensures !SepAt(s, j) {
      assert s[j..j + |Sep|] == a2[j..j + |Sep|];
      assert !SepAt(a2, j);
    }
    assert SepAt(s, |a|);
    var r := FirstSep(s);
    assert r == Some(|a|);
    assert s[..|a|] == a;
    assert s[|a| + |Sep|..] == b;
  }

  // ---- trim() -------------------------------------------------------------

  /** The characters `String.prototype.trim` removes: ECMAScript WhiteSpace
      (tab, vertical tab, form feed, space, no-break space, byte order mark and
      the Unicode space separators) and LineTerminator. */
  predicate IsJsSpace(c: char) {
    var u := c as int;
    || u == 0x09 || u == 0x0B || u == 0x0C || u == 0x20 || u == 0xA0 || u == 0xFEFF
    || u == 0x1680 || (0x2000 <= u <= 0x200A) || u == 0x202F || u == 0x205F || u == 0x3000
    || u == 0x0A || u == 0x0D || u == 0x2028 || u == 0x2029
  }

  function TrimStart(s: string): (r: string)
    ensures |r| <= |s| && r == s[|s| - |r|..]
    ensures |r| > 0 ==> !IsJsSpace(r[0])
  {
    if |s| > 0 && IsJsSpace(s[0]) then TrimStart(s[1..]) else s
  }

  function TrimEnd(s: string): (r: string)
    ensures |r| <= |s| && r == s[..|r|]
    ensures |r| > 0 ==> !IsJsSpace(r[|r| - 1])
  {
    if |s| > 0 && IsJsSpace(s[|s| - 1]) then TrimEnd(s[..|s| - 1]) else s
  }

  /** `String.prototype.trim()`. */
  function Trim(s: string): string {
    TrimEnd(TrimStart(s))
  }

  predicate IsBlank(s: string) {
    forall i :: 0 <= i < |s| ==> IsJsSpace(s[i])
  }

  lemma {:induction false} TrimStartBlank(s: string)
    ensures TrimStart(s) == "" <==> IsBlank(s)
  {
    if |s| > 0 && IsJsSpace(s[0]) {
      TrimStartBlank(s[1..]);
      assert IsBlank(s) <==> IsBlank(s[1..]) by {
        if IsBlank(s[1..]) {
          forall i | 0 <= i < |s| ensures IsJsSpace(s[i]) {
            if i > 0 { assert s[i] == s[1..][i - 1]; }
          }
        }
      }
    }
  }

  lemma {:induction false} TrimEndBlank(s: string)
    ensures TrimEnd(s) == "" <==> IsBlank(s)
  {
    if |s| > 0 && IsJsSpace(s[|s| - 1]) {
      var init := s[..|s| - 1];
      TrimEndBlank(init);
      assert IsBlank(s) <==> IsBlank(init) by {
        if IsBlank(init) {
          forall i | 0 <= i < |s| ensures IsJsSpace(s[i]) {
            if i < |s| - 1 { assert s[i] == init[i]; }
          }
        }
      }
    }
  }

  /** `!name.trim()` holds exactly for names made only of white space. */
  lemma TrimEmptyIffBlank(s: string)
    ensures Trim(s) == "" <==> IsBlank(s)
  {
    TrimStartBlank(s);
    var t := TrimStart(s);
    TrimEndBlank(t);
    if t != "" {
      assert !IsJsSpace(t[0]);
    }
  }

  // ---- "HH:MM" --------------------------------------------------------------

  const MillisPerMinute: nat := 60000
  const MillisPerHour: nat := 3600000

  /** Milliseconds after midnight denoted by `hh:mm:00`, as the date-time
      string format of ECMAScript accepts it: hours 00-23 with minutes 00-59,
      or 24:00 for the end of the day. None for anything else. */
  function ParseClock(t: string): (r: Option<nat>)
    ensures r.Some? ==> r.value <= 24 * MillisPerHour
    ensures r.Some? ==> |t| == 5 && t[2] == ':'
  {
    if |t| == 5 && IsDigit(t[0]) && IsDigit(t[1]) && t[2] == ':' && IsDigit(t[3]) && IsDigit(t[4]) then
      var h := DigitValue(t[0]) * 10 + DigitValue(t[1]);
      var m := DigitValue(t[3]) * 10 + DigitValue(t[4]);
      if (h < 24 && m < 60) || (h == 24 && m == 0) then Some(h * MillisPerHour + m * MillisPerMinute)
      else None
    else None
  }

  /** The two-digit text the time picker produces for hour `h` and minute `m`. */
  function FormatClock(h: nat, m: nat): (t: string)
    requires h < 24 && m < 60
    ensures |t| == 5
  {
    [DigitChar(h / 10), DigitChar(h % 10), ':', DigitChar(m / 10), DigitChar(m % 10)]
  }

  /** Every time the picker can produce parses back to that time of day. */
  lemma ClockRoundTrip(h: nat, m: nat)
    requires h < 24 && m < 60
    ensures ParseClock(FormatClock(h, m)) == Some(h * MillisPerHour + m * MillisPerMinute)
  {
    var t := FormatClock(h, m);
    assert DigitValue(t[0]) == h / 10 && DigitValue(t[1]) == h % 10;
    assert DigitValue(t[3]) == m / 10 && DigitValue(t[4]) == m % 10;
  }
}
