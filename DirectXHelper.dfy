/** HRESULT helpers of the sample: the hex message of an HRESULT, the exception that carries one,
    the failure test used by every driver call, and the asset-directory lookup that trims the
    executable's path after its last backslash (main/DirectXHelper.h). */
module DirectXHelper {

  /** An HRESULT is a signed 32-bit integer. */
  type HResult = x: int | -0x8000_0000 <= x < 0x8000_0000

  const TwoTo32: int := 0x1_0000_0000

  const S_OK: HResult := 0
  /** 0x887A0005 and 0x887A0007 read as signed 32-bit values. */
  const DXGI_ERROR_DEVICE_REMOVED: HResult := 0x887A0005 - 0x1_0000_0000
  const DXGI_ERROR_DEVICE_RESET: HResult := 0x887A0007 - 0x1_0000_0000

  /** The two kinds of exception the sample can throw: a plain `std::exception`, and
      `HrException`, a `std::runtime_error` whose message is `HrToString(hr)`. */
  datatype Exception =
    | StdException
    | HrException(error: HResult, message: string)

  /** Outcome of a call that either returns normally or throws. */
  datatype Outcome = Pass | Fail(exception: Exception)

  /** Result of a call that returns a value or throws. */
  datatype Result<T> = Success(value: T) | Failure(exception: Exception)

  // ---------------------------------------------------------------------------
  // Signed/unsigned views of a 32-bit value

  /** `static_cast<UINT>(hr)`: the two's-complement bit pattern read as unsigned. */
  function AsUnsigned(hr: HResult): (u: nat)
    ensures u < TwoTo32
    ensures (u - hr) % TwoTo32 == 0
  {
    if hr < 0 then hr + TwoTo32 else hr
  }

  /** `(HRESULT)u`: an unsigned 32-bit pattern read as signed. */
  function AsSigned(u: nat): (hr: HResult)
    requires u < TwoTo32
    ensures (u - hr) % TwoTo32 == 0
  {
    if u < 0x8000_0000 then u else u - TwoTo32
  }

  lemma SignedUnsignedRoundTrip(hr: HResult)
    ensures AsSigned(AsUnsigned(hr)) == hr
  {
  }

  // ---------------------------------------------------------------------------
  // HrToString: "HRESULT of 0x%08X"

  const HexDigits: string := "0123456789ABCDEF"
  const HrPrefix: string := "HRESULT of 0x"

  function Pow16(n: nat): (p: nat)
    ensures p >= 1
  {
    if n == 0 then 1 else 16 * Pow16(n - 1)
  }

  /** The `n` lowest hex digits of `u`, most significant first, upper case, zero padded. */
  function HexN(u: nat, n: nat): (s: string)
    ensures |s| == n
    ensures forall i :: 0 <= i < n ==> s[i] in HexDigits
  {
    if n == 0 then [] else HexN(u / 16, n - 1) + [HexDigits[u % 16]]
  }

  /** Value of an upper-case hex digit, if it is one. */
  function DigitValue(c: char): (d: int)
    ensures -1 <= d < 16
  {
    if '0' <= c <= '9' then c as int - '0' as int
    else if 'A' <= c <= 'F' then c as int - 'A' as int + 10
    else -1
  }

  /** `DigitValue` inverts `HexDigits` and rejects every other character. */
  lemma DigitValueMeaning(c: char)
    ensures DigitValue(c) >= 0 ==> HexDigits[DigitValue(c)] == c
    ensures DigitValue(c) < 0 ==> c !in HexDigits
  {
  }

  /** Reads a string of upper-case hex digits back as a number; None on any other character. */
  function ParseHex(s: string): (r: Option<nat>)
    ensures r.Some? ==> r.value < Pow16(|s|)
  {
    if s == [] then Some(0)
    else
      var d := DigitValue(s[|s| - 1]);
      match ParseHex(s[..|s| - 1])
      case None => None
      case Some(hi) => if d < 0 then None else Some(hi * 16 + d)
  }

  datatype Option<T> = None | Some(value: T)

  lemma DigitValueOfHexDigit(d: nat)
    requires d < 16
    ensures DigitValue(HexDigits[d]) == d
  {
  }

  /** Printing `n` hex digits and parsing them back gives the number modulo 16^n. */
  lemma {:induction false} ParseHexN(u: nat, n: nat)
    ensures ParseHex(HexN(u, n)) == Some(u % Pow16(n))
  {
    var s := HexN(u, n);
    if n == 0 {
      assert s == [] && Pow16(n) == 1;
    } else {
      var d := u % 16;
      var hi := (u / 16) % Pow16(n - 1);
      assert s[..|s| - 1] == HexN(u / 16, n - 1);
      assert s[|s| - 1] == HexDigits[d];
      ParseHexN(u / 16, n - 1);
      DigitValueOfHexDigit(d);
      DivModPow16(u, n);
      ParseHexLast(s, hi, d, u % Pow16(n));
    }
  }

  /** One step of `ParseHex`: the last digit is appended to the value of the rest. */
  lemma ParseHexLast(s: string, hi: nat, d: nat, v: nat)
    requires |s| > 0 && ParseHex(s[..|s| - 1]) == Some(hi) && DigitValue(s[|s| - 1]) == d
    requires v == hi * 16 + d
    ensures ParseHex(s) == Some(v)
  {
  }

  /** `(u / 16) % 16^(n-1) * 16 + u % 16 == u % 16^n`. */
  lemma DivModPow16(u: nat, n: nat)
    requires n > 0
    ensures (u / 16) % Pow16(n - 1) * 16 + u % 16 == u % Pow16(n)
  {
    var p := Pow16(n - 1);
    var q := u / 16;
    var r := u % 16;
    assert u == q * 16 + r;
    var a := q / p;
    var b := q % p;
    assert q == a * p + b;
    assert u == a * (16 * p) + (b * 16 + r);
    assert 0 <= b * 16 + r < 16 * p;
    ModOfDecomposition(u, a, 16 * p, b * 16 + r);
  }

  lemma ModOfDecomposition(u: int, a: int, m: int, rest: int)
    requires m > 0 && 0 <= rest < m && u == a * m + rest
    ensures u % m == rest
  {
    var q, r := u / m, u % m;
    assert (a - q) * m == r - rest;
    if a - q >= 1 {
      MulAtLeast(a - q, m);
    } else if a - q <= -1 {
      MulAtLeast(q - a, m);
    }
  }

  lemma MulAtLeast(k: int, m: int)
    requires k >= 1 && m > 0
    ensures k * m >= m
  {
    assert k * m == (k - 1) * m + m;
  }

  /** The message of an `HrException`: "HRESULT of 0x" then 8 upper-case hex digits of
      the bit pattern of `hr`. */
  function HrToString(hr: HResult): (s: string)
    ensures |s| == |HrPrefix| + 8 && s[..|HrPrefix|] == HrPrefix
    ensures forall i :: |HrPrefix| <= i < |s| ==> s[i] in HexDigits
  {
    HrPrefix + HexN(AsUnsigned(hr), 8)
  }

  /** Inverse of HrToString: recovers the HRESULT from a message. */
  function ParseHrString(s: string): (r: Option<HResult>)
  {
    if |s| != |HrPrefix| + 8 || s[..|HrPrefix|] != HrPrefix then None
    else match ParseHex(s[|HrPrefix|..])
      case None => None
      case Some(u) => if u < TwoTo32 then Some(AsSigned(u)) else None
  }

  /** Every HRESULT survives formatting and parsing: the 8 digits carry all 32 bits. */
  lemma HrToStringRoundTrip(hr: HResult)
    ensures ParseHrString(HrToString(hr)) == Some(hr)
  {
    var u := AsUnsigned(hr);
    var digits := HexN(u, 8);
    assert ParseHex(digits) == Some(u) by {
      var p := Pow16(8);
      Pow16Eight();
      ParseHexN(u, 8);
      SmallMod(u, p);
    }
    ParseHrStringOf(digits, u);
    SignedUnsignedRoundTrip(hr);
  }

  lemma ParseHrStringOf(digits: string, u: nat)
    requires |digits| == 8 && u < TwoTo32 && ParseHex(digits) == Some(u)
    ensures ParseHrString(HrPrefix + digits) == Some(AsSigned(u))
  {
    var s := HrPrefix + digits;
    assert s[..|HrPrefix|] == HrPrefix;
    assert s[|HrPrefix|..] == digits;
  }

  lemma SmallMod(u: nat, m: nat)
    requires u < m
    ensures u % m == u
  {
  }

  lemma Pow16Eight()
    ensures Pow16(8) == TwoTo32
  {
    assert Pow16(2) == 256;
    assert Pow16(4) == 65536 by { assert Pow16(3) == 4096; }
    assert Pow16(6) == 256 * 65536 by { assert Pow16(5) == 16 * 65536; }
    assert Pow16(8) == 65536 * 65536 by { assert Pow16(7) == 4096 * 65536; }
  }

  /** Distinct HRESULTs give distinct messages. */
  lemma HrToStringInjective(a: HResult, b: HResult)
    requires HrToString(a) == HrToString(b)
    ensures a == b
  {
    HrToStringRoundTrip(a);
    HrToStringRoundTrip(b);
  }

  /** `HrException(hr)`: the error code it reports is `hr`, its message is `HrToString(hr)`. */
  function MakeHrException(hr: HResult): (e: Exception)
    ensures e.HrException? && e.error == hr
    ensures ParseHrString(e.message) == Some(hr)
  {
    HrToStringRoundTrip(hr);
    HrException(hr, HrToString(hr))
  }

  // ---------------------------------------------------------------------------
  // FAILED / ThrowIfFailed

  /** The `FAILED` macro: negative as a signed 32-bit value. */
  predicate Failed(hr: HResult) {
    hr < 0
  }

  /** A failure is exactly an HRESULT whose severity bit (bit 31) is set. */
  lemma FailedIsSeverityBit(hr: HResult)
    ensures Failed(hr) <==> AsUnsigned(hr) >= 0x8000_0000
  {
  }

  /** `ThrowIfFailed` as written: it throws a plain `std::exception`, never an `HrException`. */
  function ThrowIfFailed(hr: HResult): (o: Outcome)
    ensures o.Fail? <==> Failed(hr)
    ensures o.Fail? ==> o.exception == StdException
  {
    if Failed(hr) then Fail(StdException) else Pass
  }

  /** The variant the catch handler in the renderer is written against: the exception carries
      the failing HRESULT. */
  function ThrowIfFailedHr(hr: HResult): (o: Outcome)
    ensures o.Fail? <==> Failed(hr)
    ensures o.Fail? ==> o.exception.HrException? && o.exception.error == hr
  {
    if Failed(hr) then Fail(MakeHrException(hr)) else Pass
  }

  // ---------------------------------------------------------------------------
  // getAssetsPath

  /** The characters of a NUL-terminated buffer up to (not including) its first NUL. */
  function CString(buf: seq<char>): (s: seq<char>)
    ensures |s| <= |buf| && s == buf[..|s|]
    ensures '\0' !in s
    ensures |s| < |buf| ==> buf[|s|] == '\0'
  {
    if buf == [] || buf[0] == '\0' then [] else [buf[0]] + CString(buf[1..])
  }

  lemma {:induction false} CStringOfTerminated(s: seq<char>, rest: seq<char>)
    requires '\0' !in s
    ensures CString(s + ['\0'] + rest) == s
  {
    if s != [] {
      assert (s + ['\0'] + rest)[1..] == s[1..] + ['\0'] + rest;
      CStringOfTerminated(s[1..], rest);
    }
  }

  /** `wcsrchr`: index of the last occurrence of `c` in `s`, or -1. */
  function LastIndexOf(s: seq<char>, c: char): (k: int)
    ensures -1 <= k < |s|
    ensures k >= 0 ==> s[k] == c
    ensures forall j :: k < j < |s| ==> s[j] != c
  {
    if s == [] then -1
    else if s[|s| - 1] == c then |s| - 1
    else LastIndexOf(s[..|s| - 1], c)
  }

  /** The string cut right after its last backslash, the backslash kept; unchanged when it has none. */
  function TrimAfterLastBackslash(s: string): (d: string)
  {
    var k := LastIndexOf(s, '\\');
    if k < 0 then s else s[..k + 1]
  }

  lemma TrimAfterLastBackslashMeaning(s: string)
    ensures var d := TrimAfterLastBackslash(s);
      && d <= s
      && ('\\' in s ==> |d| > 0 && d[|d| - 1] == '\\' && forall j :: |d| <= j < |s| ==> s[j] != '\\')
      && ('\\' !in s ==> d == s)
  {
    var k := LastIndexOf(s, '\\');
    if '\\' in s {
      var i :| 0 <= i < |s| && s[i] == '\\';
      assert k >= i;
    }
  }

  /** What `GetModuleFileName(nullptr, path, pathSize)` returns for an executable path `exePath`:
      its length when it fits with its NUL, `pathSize` when it was truncated. */
  function ModuleFileNameLength(exePath: string, pathSize: nat): (n: nat)
    ensures n <= pathSize
    ensures n < pathSize <==> |exePath| < pathSize
  {
    if |exePath| < pathSize then |exePath| else pathSize
  }

  /** The directory `getAssetsPath` leaves in the buffer, or the exception it throws. */
  function AssetsDirectory(exePath: string, pathSize: nat): (r: Result<string>)
    ensures r.Failure? ==> r.exception == StdException
    ensures r.Success? <==> 0 < |exePath| < pathSize
    ensures r.Success? ==> r.value == TrimAfterLastBackslash(exePath)
  {
    var size := ModuleFileNameLength(exePath, pathSize);
    if size == 0 || size == pathSize then Failure(StdException)
    else Success(TrimAfterLastBackslash(exePath))
  }

  /** `GetModuleFileName`: copies the executable's path into `path`, NUL-terminated and truncated
      to `pathSize - 1` characters when it does not fit; returns the number of characters copied,
      or `pathSize` on truncation. */
  method GetModuleFileName(path: array<char>, pathSize: nat, exePath: string) returns (size: nat)
    requires pathSize <= path.Length
    requires '\0' !in exePath
    modifies path
    ensures size == ModuleFileNameLength(exePath, pathSize)
    ensures 0 < size < pathSize ==> path[..size + 1] == exePath + ['\0']
    ensures forall i :: pathSize <= i < path.Length ==> path[i] == old(path[i])
  {
    size := ModuleFileNameLength(exePath, pathSize);
    if pathSize > 0 {
      var n := if size < pathSize then size else pathSize - 1;
      forall i | 0 <= i < n {
        path[i] := exePath[i];
      }
      path[n] := '\0';
    }
  }

  /** `getAssetsPath(path, pathSize)`: throws for a null buffer, for a failed lookup (size 0) and
      for a truncated one (size == pathSize); otherwise writes a NUL right after the last
      backslash of the path it fetched, so that the buffer holds the directory. */
  method GetAssetsPath(path: array?<char>, pathSize: nat, exePath: string) returns (o: Outcome)
    requires path != null ==> pathSize <= path.Length
    requires '\0' !in exePath
    modifies path
    ensures path == null ==> o == Fail(StdException)
    ensures path != null ==> (o.Pass? <==> AssetsDirectory(exePath, pathSize).Success?)
    ensures path != null && o.Fail? ==> o.exception == StdException
    ensures path != null && o.Pass? ==> CString(path[..]) == AssetsDirectory(exePath, pathSize).value
  {
    if path == null {
      return Fail(StdException);
    }
    var size := GetModuleFileName(path, pathSize, exePath);
    if size == 0 || size == pathSize {
      return Fail(StdException);
    }
    assert path[..size] == exePath;
    var lastSlash := LastIndexOf(path[..size], '\\');
    if lastSlash >= 0 {
      path[lastSlash + 1] := '\0';
      assert path[..] == exePath[..lastSlash + 1] + ['\0'] + path[lastSlash + 2..];
      CStringOfTerminated(exePath[..lastSlash + 1], path[lastSlash + 2..]);
    } else {
      assert path[..] == exePath + ['\0'] + path[size + 1..];
      CStringOfTerminated(exePath, path[size + 1..]);
    }
    o := Pass;
  }
}
