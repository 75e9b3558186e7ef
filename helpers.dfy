/**
 * Two request helpers of cmd/api/helpers.go: `readIDParam`, which parses the
 * `id` route parameter as a positive 64-bit integer, and the header handling
 * of `writeJSON`.
 */
module Helpers {
  import opened Wrappers
  import opened HttpHeader

  const MaxInt64: int := 0x7fff_ffff_ffff_ffff
  const MinInt64: int := -0x8000_0000_0000_0000
  const MaxUint64: int := 0xffff_ffff_ffff_ffff

  /** The two ways `strconv.ParseInt` fails. */
  datatype NumError = ErrSyntax | ErrRange

  predicate IsDigit(c: char)
  {
    '0' <= c <= '9'
  }

  predicate AllDigits(s: string)
  {
    forall i :: 0 <= i < |s| ==> IsDigit(s[i])
  }

  /** The value of a string of decimal digits, most significant first. */
  function DecimalValue(s: string): (v: nat)
    requires AllDigits(s)
  {
    if s == [] then 0
    else DecimalValue(s[..|s| - 1]) * 10 + (s[|s| - 1] as int - '0' as int)
  }

  /** The leading run of decimal digits of `s`. */
  function DigitPrefix(s: string): (p: string)
    ensures p <= s && AllDigits(p)
    ensures |p| < |s| ==> !IsDigit(s[|p|])
    ensures AllDigits(s) ==> p == s
  {
    if s == [] || !IsDigit(s[0]) then [] else [s[0]] + DigitPrefix(s[1..])
  }

  /** `s` without its leading sign: what `ParseInt` hands to `ParseUint`. */
  function Unsigned(s: string): (u: string)
    ensures |u| <= |s|
  {
    if s != [] && (s[0] == '+' || s[0] == '-') then s[1..] else s
  }

  /**
   * `strconv.ParseInt(s, 10, 64)`: an optional sign, then one or more decimal
   * digits (no underscores, since the base is given), and a value that fits
   * in 64 bits. `ParseUint` reads the digits left to right and reports a range
   * error as soon as the value read so far passes 2^64 - 1, so digits that
   * overflow are a range error even when a non-digit follows them.
   */
  function ParseInt(s: string): (r: Result<int, NumError>)
    ensures r.Success? ==> MinInt64 <= r.value <= MaxInt64
    ensures s == "" ==> r == Failure(ErrSyntax)
    ensures r.Success? <==>
      && Unsigned(s) != [] && AllDigits(Unsigned(s))
      && (if s[0] == '-' then DecimalValue(Unsigned(s)) <= -MinInt64 else DecimalValue(Unsigned(s)) <= MaxInt64)
    ensures r.Success? ==> r.value == if s[0] == '-' then 0 - DecimalValue(Unsigned(s)) as int else DecimalValue(Unsigned(s))
  {
    if s == [] then Failure(ErrSyntax)
    else
      var negative := s[0] == '-';
      var digits := Unsigned(s);
      var run := DigitPrefix(digits);
      if digits == [] then Failure(ErrSyntax)
      else if DecimalValue(run) > MaxUint64 then Failure(ErrRange)
      else if run != digits then Failure(ErrSyntax)
      else
        var v: int := if negative then 0 - DecimalValue(digits) as int else DecimalValue(digits);
        if v < MinInt64 || v > MaxInt64 then Failure(ErrRange) else Success(v)
  }

  /** The digits read before any position are worth no more than the whole run. */
  lemma {:induction false} DecimalValuePrefix(s: string, j: nat)
    requires AllDigits(s) && j <= |s|
    ensures AllDigits(s[..j]) && DecimalValue(s[..j]) <= DecimalValue(s)
    decreases |s|
  {
    assert AllDigits(s[..j]) by {
      forall i | 0 <= i < j ensures IsDigit(s[..j][i]) {
        assert s[..j][i] == s[i];
      }
    }
    if j < |s| {
      var t := s[..|s| - 1];
      assert AllDigits(t) by {
        forall i | 0 <= i < |t| ensures IsDigit(t[i]) {
          assert t[i] == s[i];
        }
      }
      DecimalValuePrefix(t, j);
      assert t[..j] == s[..j];
      assert DecimalValue(s) == DecimalValue(t) * 10 + (s[|s| - 1] as int - '0' as int);
    } else {
      assert s[..j] == s;
    }
  }

  /** A run of digits stays at the front of the digit prefix whatever follows it. */
  lemma {:induction false} DigitPrefixExtends(digits: string, rest: string)
    requires AllDigits(digits)
    ensures digits <= DigitPrefix(digits + rest)
    decreases |digits|
  {
    if digits != [] {
      assert (digits + rest)[0] == digits[0];
      assert (digits + rest)[1..] == digits[1..] + rest;
      assert AllDigits(digits[1..]) by {
        forall i | 0 <= i < |digits| - 1 ensures IsDigit(digits[1..][i]) {
          assert digits[1..][i] == digits[i + 1];
        }
      }
      DigitPrefixExtends(digits[1..], rest);
    }
  }

  /**
   * Digits worth more than 2^64 - 1 are a range error whatever follows them,
   * so "99999999999999999999x" fails with ErrRange, not ErrSyntax.
   */
  lemma RangeErrorBeforeSyntaxError(digits: string, rest: string)
    requires AllDigits(digits) && DecimalValue(digits) > MaxUint64
    ensures ParseInt(digits + rest) == Failure(ErrRange)
  {
    var s := digits + rest;
    assert digits != [];
    assert s[0] == digits[0];
    assert Unsigned(s) == s;
    DigitPrefixExtends(digits, rest);
    var run := DigitPrefix(s);
    assert run[..|digits|] == digits;
    DecimalValuePrefix(run, |digits|);
  }

  const InvalidId: string := "invalid id parameter"

  /**
   * `readIDParam` on the `id` route parameter (the empty string when it is
   * missing): Go's pair of an id and an error. An id is returned only when
   * it lies in [1, 2^63 - 1]; every failure returns 0 with the same error.
   */
  function ReadIdParam(param: string): (r: (int, Option<string>))
    ensures r.1.None? ==> 1 <= r.0 <= MaxInt64 && ParseInt(param) == Success(r.0)
    ensures r.1.Some? ==> r.0 == 0 && r.1 == Some(InvalidId)
    ensures ParseInt(param).Failure? ==> r.1.Some?
    ensures ParseInt(param).Success? && ParseInt(param).value >= 1 ==> r == (ParseInt(param).value, None)
  {
    match ParseInt(param)
    case Failure(_) => (0, Some(InvalidId))
    case Success(id) => if id < 1 then (0, Some(InvalidId)) else (id, None)
  }

  /** A parameter that parses to a number below 1, such as "0" or "-5", is rejected. */
  lemma NonPositiveIdRejected()
    ensures ReadIdParam("0") == (0, Some(InvalidId))
    ensures ReadIdParam("-5") == (0, Some(InvalidId))
  {
    assert DecimalValue("0") == 0;
    assert "-5"[1..] == "5";
    assert DecimalValue("5") == 5;
  }

  /** A character that is neither a digit nor a leading sign makes the parameter invalid. */
  lemma NonDecimalIdRejected(param: string, i: nat)
    requires i < |param| && !IsDigit(param[i])
    requires i == 0 ==> param[0] != '+' && param[0] != '-'
    ensures ReadIdParam(param) == (0, Some(InvalidId))
  {
    var digits := if param[0] == '+' || param[0] == '-' then param[1..] else param;
    if param[0] == '+' || param[0] == '-' {
      assert digits[i - 1] == param[i];
    } else {
      assert digits[i] == param[i];
    }
  }

  /** Digits worth more than 2^63 - 1 make the parameter invalid. */
  lemma OutOfRangeIdRejected(param: string)
    requires param != [] && AllDigits(param) && DecimalValue(param) > MaxInt64
    ensures ParseInt(param) == Failure(ErrRange)
    ensures ReadIdParam(param) == (0, Some(InvalidId))
  {
    assert !(param[0] == '+' || param[0] == '-');
  }

  /** The decimal rendering of a natural number, as `strconv.FormatInt(n, 10)` writes it. */
  function FormatDecimal(n: nat): (s: string)
    ensures s != [] && AllDigits(s)
    decreases n
  {
    if n < 10 then [(n + '0' as int) as char]
    else FormatDecimal(n / 10) + [((n % 10) + '0' as int) as char]
  }

  lemma {:induction false} DecimalValueOfFormat(n: nat)
    ensures DecimalValue(FormatDecimal(n)) == n
    decreases n
  {
    var s := FormatDecimal(n);
    if n >= 10 {
      DecimalValueOfFormat(n / 10);
      assert s[..|s| - 1] == FormatDecimal(n / 10);
    }
  }

  /** Every id the API can hand out reads back: parsing its decimal rendering gives it again. */
  lemma ReadIdRoundTrip(n: int)
    requires 1 <= n <= MaxInt64
    ensures ParseInt(FormatDecimal(n)) == Success(n)
    ensures ReadIdParam(FormatDecimal(n)) == (n, None)
  {
    DecimalValueOfFormat(n);
    var s := FormatDecimal(n);
    assert IsDigit(s[0]);
  }

  const ContentType: string := "Content-Type"
  const ApplicationJson: string := "application/json"

  /** The response as `writeJSON` leaves it: headers, the status written, and the body. */
  class ResponseWriter {
    var header: Header
    var status: Option<int>
    var body: string

    constructor ()
      ensures header == map[] && status == None && body == []
    {
      header := map[];
      status := None;
      body := [];
    }

    /**
     * `writeJSON(w, status, data, headers)`, with the JSON encoding of `data`
     * given as `encoded` (a failure is the marshalling error, returned before
     * the response is touched). Every supplied header is copied over the
     * response's, then Content-Type is set to application/json, overriding any
     * supplied one; the status is written and the body is the JSON and a
     * newline.
     */
    method WriteJson(code: int, encoded: Result<string, string>, headers: Header) returns (err: Option<string>)
      modifies this
      ensures encoded.Failure? ==> err == Some(encoded.error) && unchanged(this)
      ensures encoded.Success? ==>
        && err == None
        && header.Keys == old(header).Keys + headers.Keys + {ContentType}
        && header[ContentType] == [ApplicationJson]
        && (forall k :: k in headers && k != ContentType ==> header[k] == headers[k])
        && (forall k :: k in old(header) && k !in headers && k != ContentType ==> header[k] == old(header)[k])
        && status == Some(code)
        && body == old(body) + encoded.value + "\n"
    {
      if encoded.Failure? {
        return Some(encoded.error);
      }
      var js := encoded.value + "\n";
      var pending := headers.Keys;
      while pending != {}
        invariant pending <= headers.Keys
        invariant header == old(header) + map k | k in headers && k !in pending :: headers[k]
        invariant body == old(body)
        decreases pending
      {
        var key :| key in pending;
        header := header[key := headers[key]];
        pending := pending - {key};
      }
      header := Set(header, ContentType, ApplicationJson);
      status := Some(code);
      body := body + js;
      return None;
    }
  }
}
