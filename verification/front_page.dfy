/**
 * The pure helpers of the BDS front page: picking the k-th string of an
 * SMBIOS structure's string set, turning a processor frequency and a
 * memory size into display text, and the progress countdown before boot.
 *
 * The string set is the bytes from OptionalStrStart on, read as NUL past
 * the end of the sequence. The missing-string placeholder, which comes from
 * the HII string package, is `MissingString`. Digits are rendered in full;
 * the print library's field widths are not part of this model. The key
 * wait and key read of the countdown are parameters: `waits[i]` is what
 * WaitForSingleEvent returns in second i (EFI_TIMEOUT past the end of the
 * sequence, a second with no key press).
 */
module FrontPage {
  import opened Efi
  import opened Bits

  // ---------------------------------------------------------------------
  // GetOptionalStringByIndex

  /** The byte at `i` of the string set; NUL past its end. */
  function At(buf: seq<Byte>, i: nat): Byte
  {
    if i < |buf| then buf[i] else 0
  }

  /** The characters of the NUL-terminated string at `p`. */
  function StrAt(buf: seq<Byte>, p: nat): (s: seq<Byte>)
    ensures At(buf, p + |s|) == 0
    ensures forall i :: 0 <= i < |s| ==> s[i] == At(buf, p + i) && s[i] != 0
    decreases |buf| - p
  {
    if At(buf, p) == 0 then [] else [At(buf, p)] + StrAt(buf, p + 1)
  }

  /** AsciiStrSize: the string's length with its terminator. */
  function StrSize(buf: seq<Byte>, p: nat): (n: nat)
    ensures n >= 1
  {
    |StrAt(buf, p)| + 1
  }

  /**
   * The strings of the set from `p` on: each runs to its NUL, and the set
   * ends where a NUL follows a terminator.
   */
  function Strings(buf: seq<Byte>, p: nat): (r: seq<seq<Byte>>)
    ensures |r| >= 1 && r[0] == StrAt(buf, p)
    decreases |buf| - p
  {
    var s := StrAt(buf, p);
    if At(buf, p + |s| + 1) == 0 then [s] else [s] + Strings(buf, p + |s| + 1)
  }

  datatype OptionalString = Str(chars: seq<Byte>) | MissingString

  /**
   * The do-while loop, from the state (OptionalStrStart, StrSize, Index):
   * step to the next string and measure it, until the set ends or Index
   * reaches 0.
   */
  function Seek(buf: seq<Byte>, p: nat, size: nat, index: nat): (r: SeekState)
    requires index >= 1
    decreases index
  {
    var p' := p + size;
    var size' := StrSize(buf, p');
    if At(buf, p' + size') != 0 && index - 1 != 0 then Seek(buf, p', size', index - 1)
    else SeekState(p', size', index - 1)
  }

  /** OptionalStrStart, StrSize and Index when the loop ends. */
  datatype SeekState = SeekState(start: nat, size: nat, index: nat)

  /** GetOptionalStringByIndex */
  function GetOptionalStringByIndex(buf: seq<Byte>, index: nat): (r: OptionalString)
    requires index < 0x100
    ensures index == 0 ==> r == Str([])
    ensures r.Str? ==> forall i :: 0 <= i < |r.chars| ==> r.chars[i] != 0
  {
    if index == 0 then Str([])
    else
      var e := Seek(buf, 0, 0, index);
      if e.index != 0 || e.size == 1 then MissingString else Str(StrAt(buf, e.start))
  }

  /**
   * The loop from the string at `q` with `index` strings to go stops on the
   * index-th string of the set from `q` when there is one, and otherwise
   * with the strings it lacked still counted in Index.
   */
  lemma {:induction false} SeekFinds(buf: seq<Byte>, p: nat, size: nat, index: nat)
    requires index >= 1
    ensures var strs := Strings(buf, p + size);
      var e := Seek(buf, p, size, index);
      && (index <= |strs| ==> e.index == 0 && StrAt(buf, e.start) == strs[index - 1] && e.size == |strs[index - 1]| + 1)
      && (index > |strs| ==> e.index == index - |strs|)
    decreases index
  {
    var q := p + size;
    var s := StrAt(buf, q);
    var next := q + |s| + 1;
    var strs := Strings(buf, q);
    var e := Seek(buf, p, size, index);
    if At(buf, next) != 0 && index - 1 != 0 {
      SeekFinds(buf, q, |s| + 1, index - 1);
      var later := Strings(buf, q + (|s| + 1));
      assert e == Seek(buf, q, |s| + 1, index - 1);
      assert strs == [s] + later;
      if index <= |strs| {
        assert index - 1 <= |later|;
        assert StrAt(buf, e.start) == later[index - 2] == strs[index - 1];
        assert e.size == |later[index - 2]| + 1;
      } else {
        assert index - 1 > |later|;
        assert e.index == index - 1 - |later|;
      }
    } else if At(buf, next) == 0 {
      assert strs == [s];
      assert e == SeekState(q, |s| + 1, index - 1);
      if index == 1 {
        assert StrAt(buf, e.start) == s == strs[0];
      }
    } else {
      assert index == 1;
      assert e == SeekState(q, |s| + 1, 0);
      assert StrAt(buf, e.start) == s == strs[0];
    }
  }

  /**
   * Index k (1 to 255) names the k-th string of the set: it is returned
   * when it exists and is not empty, and the placeholder otherwise.
   */
  lemma OptionalStringIsKth(buf: seq<Byte>, index: nat)
    requires 1 <= index < 0x100
    ensures var strs := Strings(buf, 0);
      GetOptionalStringByIndex(buf, index) ==
        if index <= |strs| && strs[index - 1] != [] then Str(strs[index - 1]) else MissingString
  {
    SeekFinds(buf, 0, 0, index);
  }

  // ---------------------------------------------------------------------
  // ConvertProcessorToString

  function Pow10(k: nat): (r: nat)
    ensures r >= 1
  {
    if k == 0 then 1 else 10 * Pow10(k - 1)
  }

  /** The loop `FreqMhz *= 10`, `k` times, in a UINT32. */
  function Scale(f: nat, k: nat): (r: nat)
    requires f < U32
    ensures r < U32
    decreases k
  {
    if k == 0 then f else Scale((f * 10) % U32, k - 1)
  }

  /** FreqMhz: 0 below 10^6 Hz exponents, else the frequency scaled to MHz in a UINT32. */
  function FreqMhz(frequency: nat, exponent: nat): (r: nat)
    requires frequency < U16 && exponent < U16
    ensures r < U32
  {
    if exponent >= 6 then Scale(frequency, exponent - 6) else 0
  }

  /** Reducing before a multiplication does not change the product's residue. */
  lemma ModMul(a: nat, b: nat, m: nat)
    requires m > 0
    ensures ((a % m) * b) % m == (a * b) % m
  {
    var r := a % m;
    var q := a / m;
    assert a == m * q + r;
    assert a * b == m * (q * b) + r * b;
    var rb := r * b;
    assert rb == m * (rb / m) + rb % m;
    assert a * b == m * (q * b + rb / m) + rb % m;
    DivModUnique(a * b, m, q * b + rb / m, rb % m);
  }

  /** The repeated UINT32 multiplication is the exact product truncated once. */
  lemma {:induction false} ScaleIsTruncatedProduct(f: nat, k: nat)
    requires f < U32
    ensures Scale(f, k) == (f * Pow10(k)) % U32
    decreases k
  {
    if k == 0 {
      DivModUnique(f, U32, 0, f);
    } else {
      ScaleIsTruncatedProduct((f * 10) % U32, k - 1);
      ModMul(f * 10, Pow10(k - 1), U32);
      assert f * 10 * Pow10(k - 1) == f * Pow10(k);
    }
  }

  /** The frequency in MHz, as the UINT32 the source computes. */
  lemma FreqMhzValue(frequency: nat, exponent: nat)
    requires frequency < U16 && exponent < U16
    ensures exponent < 6 ==> FreqMhz(frequency, exponent) == 0
    ensures exponent >= 6 ==> FreqMhz(frequency, exponent) == (frequency * Pow10(exponent - 6)) % U32
  {
    if exponent >= 6 {
      ScaleIsTruncatedProduct(frequency, exponent - 6);
    }
  }

  predicate IsDigit(c: char)
  {
    '0' <= c <= '9'
  }

  function Digit(d: nat): (c: char)
    requires d < 10
    ensures IsDigit(c)
  {
    ('0' as int + d) as char
  }

  /** The decimal digits of `n`, without leading zeros. */
  function Decimal(n: nat): (s: string)
    ensures |s| >= 1 && forall i :: 0 <= i < |s| ==> IsDigit(s[i])
  {
    if n < 10 then [Digit(n)] else Decimal(n / 10) + [Digit(n % 10)]
  }

  function DigitValue(c: char): (d: nat)
    requires IsDigit(c)
    ensures d < 10 && Digit(d) == c
  {
    c as int - '0' as int
  }

  /** The value of a string of decimal digits. */
  function ParseDecimal(s: string): nat
    requires forall i :: 0 <= i < |s| ==> IsDigit(s[i])
  {
    if |s| == 0 then 0 else 10 * ParseDecimal(s[..|s| - 1]) + DigitValue(s[|s| - 1])
  }

  /** Reading the digits back gives the number. */
  lemma {:induction false} DecimalRoundTrip(n: nat)
    ensures ParseDecimal(Decimal(n)) == n
  {
    var s := Decimal(n);
    if n >= 10 {
      DecimalRoundTrip(n / 10);
      assert s[..|s| - 1] == Decimal(n / 10);
    }
  }

  /** The two-digit, zero-padded hundredths. */
  function TwoDigits(v: nat): (s: string)
    requires v < 100
    ensures |s| == 2 && IsDigit(s[0]) && IsDigit(s[1])
  {
    [Digit(v / 10), Digit(v % 10)]
  }

  /** The text ConvertProcessorToString builds: whole GHz, '.', two digits of hundredths, " GHz". */
  function FrequencyText(freqMhz: nat): string
  {
    Decimal(freqMhz / 1000) + "." + TwoDigits((freqMhz % 1000) / 10) + " GHz"
  }

  /** ConvertProcessorToString */
  function ConvertProcessorToString(frequency: nat, exponent: nat): (s: string)
    requires frequency < U16 && exponent < U16
    ensures |s| >= 8 && s[|s| - 4..] == " GHz"
  {
    FrequencyText(FreqMhz(frequency, exponent))
  }

  /** A number below 10^k has at most k decimal digits. */
  lemma {:induction false} DecimalWidth(n: nat, k: nat)
    requires 1 <= k && n < Pow10(k)
    ensures |Decimal(n)| <= k
  {
    if n >= 10 {
      assert Pow10(1) == 10;
      assert Pow10(k) == 10 * Pow10(k - 1);
      DecimalWidth(n / 10, k - 1);
    }
  }

  /**
   * Reading the frequency text back: the digits before the '.' are the
   * whole GHz, at most the three the source's print width allows, and the
   * two after it the hundredths, truncated.
   */
  lemma FrequencyTextReads(freqMhz: nat)
    requires freqMhz < 1000000
    ensures var s := FrequencyText(freqMhz);
      var w := |Decimal(freqMhz / 1000)|;
      && w <= 3
      && s[w] == '.' && (forall i :: 0 <= i < w ==> IsDigit(s[i]))
      && ParseDecimal(s[..w]) == freqMhz / 1000
      && ParseDecimal(s[w + 1..w + 3]) == (freqMhz % 1000) / 10
  {
    var d := Decimal(freqMhz / 1000);
    var t := TwoDigits((freqMhz % 1000) / 10);
    var s := FrequencyText(freqMhz);
    assert s == d + "." + t + " GHz";
    assert s[..|d|] == d;
    assert s[|d| + 1..|d| + 3] == t;
    DecimalRoundTrip(freqMhz / 1000);
    assert Pow10(3) == 1000;
    DecimalWidth(freqMhz / 1000, 3);
    var v := (freqMhz % 1000) / 10;
    assert t[..1] == [Digit(v / 10)];
    assert [Digit(v / 10)][..0] == [];
    assert DigitValue(Digit(v / 10)) == v / 10 && DigitValue(Digit(v % 10)) == v % 10;
    assert ParseDecimal(t[..1]) == v / 10;
    assert t[..2] == t && ParseDecimal(t) == 10 * (v / 10) + v % 10;
  }

  // ---------------------------------------------------------------------
  // ConvertMemorySizeToString

  /** ConvertMemorySizeToString: the size in MB, then " MB RAM". */
  function ConvertMemorySizeToString(memorySize: nat): (s: string)
    requires memorySize < U32
    ensures |s| >= 8 && s[|s| - 7..] == " MB RAM"
    ensures forall i :: 0 <= i < |s| - 7 ==> IsDigit(s[i])
  {
    Decimal(memorySize) + " MB RAM"
  }

  /**
   * The digits before " MB RAM", at most the six the source's print width
   * allows, read back as the size.
   */
  lemma MemorySizeTextReads(memorySize: nat)
    requires memorySize < 1000000
    ensures var s := ConvertMemorySizeToString(memorySize);
      |s| - 7 <= 6 && ParseDecimal(s[..|s| - 7]) == memorySize
  {
    var s := ConvertMemorySizeToString(memorySize);
    assert s[..|s| - 7] == Decimal(memorySize);
    DecimalRoundTrip(memorySize);
    assert Pow10(6) == 1000000;
    DecimalWidth(memorySize, 6);
  }

  // ---------------------------------------------------------------------
  // ShowProgress

  const CHAR_CARRIAGE_RETURN: nat := 0x0D

  /** What WaitForSingleEvent returns in second `i`. */
  function Wait(waits: seq<Status>, i: nat): Status
  {
    if i < |waits| then waits[i] else Timeout
  }

  /** The percentage shown once `remain` of `total` seconds are left. */
  function Percent(total: nat, remain: nat): (p: nat)
    requires 0 < total && remain <= total
    ensures p <= 100
  {
    (total - remain) * 100 / total
  }

  /**
   * The countdown loop from `remain` seconds left, in second `i`: each
   * second without a key shows the new percentage (when the string exists);
   * a key ends the loop. Returns the seconds left and the percentages shown.
   */
  function Countdown(total: nat, remain: nat, waits: seq<Status>, i: nat, shows: bool): (r: (nat, seq<nat>))
    requires 0 < total && remain <= total
    ensures r.0 <= remain
    ensures forall k :: 0 <= k < |r.1| ==> r.1[k] <= 100
    decreases remain
  {
    if remain == 0 then (0, [])
    else if Wait(waits, i) != Timeout then (remain, [])
    else
      var rest := Countdown(total, remain - 1, waits, i + 1, shows);
      (rest.0, (if shows then [Percent(total, remain - 1)] else []) + rest.1)
  }

  datatype ProgressResult = ProgressResult(status: Status, shown: seq<nat>)

  /**
   * ShowProgress. `shows` says whether the progress string exists;
   * `keyStatus` and `keyChar` are what ReadKeyStroke returns.
   */
  function ShowProgress(timeoutDefault: nat, shows: bool, waits: seq<Status>, keyStatus: Status, keyChar: nat): (r: ProgressResult)
    requires timeoutDefault < U16
    ensures timeoutDefault == 0 ==> r == ProgressResult(Timeout, [])
    ensures forall k :: 0 <= k < |r.shown| ==> r.shown[k] <= 100
    ensures r.status == Success || r.status == Timeout || r.status == keyStatus
  {
    if timeoutDefault == 0 then ProgressResult(Timeout, [])
    else
      var (remain, shown) := Countdown(timeoutDefault, timeoutDefault, waits, 0, shows);
      var all := (if shows then [0] else []) + shown;
      if remain == 0 then ProgressResult(Timeout, all)
      else if keyStatus.IsError() then ProgressResult(keyStatus, all)
      else if keyChar == CHAR_CARRIAGE_RETURN then ProgressResult(Timeout, all)
      else ProgressResult(Success, all)
  }

  /** The seconds that pass before a key, from second `i` with `remain` left: at most `remain`. */
  function Elapsed(waits: seq<Status>, i: nat, remain: nat): (n: nat)
    ensures n <= remain
    ensures forall k :: i <= k < i + n ==> Wait(waits, k) == Timeout
    ensures n < remain ==> Wait(waits, i + n) != Timeout
    decreases remain
  {
    if remain == 0 || Wait(waits, i) != Timeout then 0 else 1 + Elapsed(waits, i + 1, remain - 1)
  }

  /**
   * The countdown shows one percentage per elapsed second, the k-th being
   * k * 100 / total after the seconds already gone, and stops with the
   * seconds that did not elapse.
   */
  lemma {:induction false} CountdownShows(total: nat, remain: nat, waits: seq<Status>, i: nat)
    requires 0 < total && remain <= total
    ensures var n := Elapsed(waits, i, remain);
      var r := Countdown(total, remain, waits, i, true);
      && r.0 == remain - n
      && |r.1| == n
      && forall k :: 0 <= k < n ==> r.1[k] == (total - remain + k + 1) * 100 / total
    decreases remain
  {
    if remain > 0 && Wait(waits, i) == Timeout {
      CountdownShows(total, remain - 1, waits, i + 1);
      var r := Countdown(total, remain, waits, i, true);
      var rest := Countdown(total, remain - 1, waits, i + 1, true);
      assert r.1 == [Percent(total, remain - 1)] + rest.1;
      forall k | 1 <= k < Elapsed(waits, i, remain)
        ensures r.1[k] == (total - remain + k + 1) * 100 / total
      {
        assert r.1[k] == rest.1[k - 1];
      }
    }
  }

  /** A later second never shows a smaller percentage. */
  lemma PercentMonotone(total: nat, a: nat, b: nat)
    requires 0 < total && a <= b
    ensures a * 100 / total <= b * 100 / total
  {
    DivMono(a * 100, b * 100, total);
  }

  /**
   * With the progress string present, the bar shows 0 and then k * 100 / T
   * for each of the n seconds that elapse before a key or the timeout.
   */
  lemma ShownValues(timeoutDefault: nat, waits: seq<Status>, keyStatus: Status, keyChar: nat)
    requires 0 < timeoutDefault < U16
    ensures var r := ShowProgress(timeoutDefault, true, waits, keyStatus, keyChar);
      var n := Elapsed(waits, 0, timeoutDefault);
      && |r.shown| == n + 1
      && (forall k :: 0 <= k <= n ==> r.shown[k] == k * 100 / timeoutDefault)
      && (r.status == Timeout || n < timeoutDefault)
  {
    CountdownShows(timeoutDefault, timeoutDefault, waits, 0);
    var r := ShowProgress(timeoutDefault, true, waits, keyStatus, keyChar);
    var rest := Countdown(timeoutDefault, timeoutDefault, waits, 0, true);
    assert r.shown == [0] + rest.1;
    forall k | 0 <= k <= Elapsed(waits, 0, timeoutDefault) ensures r.shown[k] == k * 100 / timeoutDefault {
      if k > 0 {
        var T := timeoutDefault;
        assert r.shown[k] == rest.1[k - 1] == (T - T + (k - 1) + 1) * 100 / T;
        assert T - T + (k - 1) + 1 == k;
      } else {
        DivModUnique(0 * 100, timeoutDefault, 0, 0);
      }
    }
  }

  /**
   * With the progress string present and no key pressed in time, the bar
   * goes 0, 100/T, 200/T, ... up to 100 in T + 1 steps, never backwards,
   * and the boot goes ahead with EFI_TIMEOUT.
   */
  lemma NoKeyRunsToFull(timeoutDefault: nat, waits: seq<Status>, keyStatus: Status, keyChar: nat)
    requires 0 < timeoutDefault < U16
    requires forall k :: 0 <= k < timeoutDefault ==> Wait(waits, k) == Timeout
    ensures var r := ShowProgress(timeoutDefault, true, waits, keyStatus, keyChar);
      && r.status == Timeout
      && |r.shown| == timeoutDefault + 1
      && r.shown[0] == 0 && r.shown[timeoutDefault] == 100
      && forall k :: 0 <= k <= timeoutDefault ==> r.shown[k] == k * 100 / timeoutDefault
  {
    ShownValues(timeoutDefault, waits, keyStatus, keyChar);
    CountdownShows(timeoutDefault, timeoutDefault, waits, 0);
    assert Elapsed(waits, 0, timeoutDefault) == timeoutDefault;
    DivModUnique(timeoutDefault * 100, timeoutDefault, 100, 0);
  }

  /**
   * A key pressed in second `n` (before the timeout) ends the countdown
   * with n + 1 percentages shown; Enter then means EFI_TIMEOUT, any other
   * key EFI_SUCCESS, and a failed key read its own status.
   */
  lemma KeyStopsCountdown(timeoutDefault: nat, waits: seq<Status>, keyStatus: Status, keyChar: nat, n: nat)
    requires 0 < timeoutDefault < U16 && n < timeoutDefault
    requires forall k :: 0 <= k < n ==> Wait(waits, k) == Timeout
    requires Wait(waits, n) != Timeout
    ensures var r := ShowProgress(timeoutDefault, true, waits, keyStatus, keyChar);
      && |r.shown| == n + 1
      && (keyStatus.IsError() ==> r.status == keyStatus)
      && (!keyStatus.IsError() ==> (r.status == Timeout <==> keyChar == CHAR_CARRIAGE_RETURN))
      && (!keyStatus.IsError() ==> (r.status == Success <==> keyChar != CHAR_CARRIAGE_RETURN))
  {
    CountdownShows(timeoutDefault, timeoutDefault, waits, 0);
    ElapsedIs(waits, 0, timeoutDefault, n);
  }

  /** The elapsed seconds are the seconds before the first key. */
  lemma {:induction false} ElapsedIs(waits: seq<Status>, i: nat, remain: nat, n: nat)
    requires n < remain
    requires forall k :: i <= k < i + n ==> Wait(waits, k) == Timeout
    requires Wait(waits, i + n) != Timeout
    ensures Elapsed(waits, i, remain) == n
    decreases n
  {
    if n > 0 {
      ElapsedIs(waits, i + 1, remain - 1, n - 1);
    }
  }

  /** The percentages shown never go down. */
  lemma ShownSorted(timeoutDefault: nat, waits: seq<Status>, keyStatus: Status, keyChar: nat)
    requires 0 < timeoutDefault < U16
    ensures var r := ShowProgress(timeoutDefault, true, waits, keyStatus, keyChar);
      forall j, k :: 0 <= j <= k < |r.shown| ==> r.shown[j] <= r.shown[k]
  {
    ShownValues(timeoutDefault, waits, keyStatus, keyChar);
    var r := ShowProgress(timeoutDefault, true, waits, keyStatus, keyChar);
    forall j, k | 0 <= j <= k < |r.shown| ensures r.shown[j] <= r.shown[k] {
      PercentMonotone(timeoutDefault, j, k);
    }
  }
}
