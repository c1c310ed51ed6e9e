/** Decoding the creation time that a Misskey "aid" identifier carries in
    its first eight characters. */
module Aid {
  import opened Results

  /** 2000-01-01T00:00:00Z in milliseconds since the Unix epoch. */
  const Time2000: int := 946684800000

  /** Number of leading characters that hold the time. */
  const TimeWidth: nat := 8

  /** Python's ValueError "invalid literal for int() with base 36". */
  datatype AidError = InvalidLiteral(literal: string)

  /** The digits `int(s, 36)` accepts: 0-9 and the letters in either case. */
  predicate IsDigit36(ch: char) {
    '0' <= ch <= '9' || 'a' <= ch <= 'z' || 'A' <= ch <= 'Z'
  }

  predicate AllDigits36(s: string) {
    forall i :: 0 <= i < |s| ==> IsDigit36(s[i])
  }

  function DigitValue(ch: char): (v: nat)
    requires IsDigit36(ch)
    ensures v < 36
    ensures ('0' <= ch <= '9') == (v < 10)
  {
    if '0' <= ch <= '9' then ch as int - '0' as int
    else if 'a' <= ch <= 'z' then ch as int - 'a' as int + 10
    else ch as int - 'A' as int + 10
  }

  /** An upper-case letter read as the same digit as its lower-case form. */
  function LowerChar(ch: char): char {
    if 'A' <= ch <= 'Z' then (ch as int - 'A' as int + 'a' as int) as char else ch
  }

  /** `int(s, 36)` ignores case: a letter has the same value in either case. */
  lemma DigitValueIgnoresCase(ch: char)
    requires IsDigit36(ch)
    ensures IsDigit36(LowerChar(ch)) && DigitValue(LowerChar(ch)) == DigitValue(ch)
  {
  }

  function Pow36(n: nat): (p: nat)
    ensures p >= 1
  {
    if n == 0 then 1 else 36 * Pow36(n - 1)
  }

  lemma {:induction false} Pow36Monotone(m: nat, n: nat)
    requires m <= n
    ensures Pow36(m) <= Pow36(n)
  {
    if m < n {
      Pow36Monotone(m, n - 1);
    }
  }

  /** Big-endian base-36 value of a string of digits. */
  function Base36(s: string): (v: nat)
    requires AllDigits36(s)
    ensures v < Pow36(|s|)
  {
    if s == [] then 0 else Base36(s[..|s| - 1]) * 36 + DigitValue(s[|s| - 1])
  }

  /** Lower-casing a digit string does not change its value. */
  lemma {:induction false} Base36IgnoresCase(s: string, t: string)
    requires AllDigits36(s) && |t| == |s|
    requires forall i :: 0 <= i < |s| ==> t[i] == LowerChar(s[i])
    ensures AllDigits36(t) && Base36(t) == Base36(s)
  {
    forall i | 0 <= i < |s| {
      DigitValueIgnoresCase(s[i]);
    }
    if s != [] {
      Base36IgnoresCase(s[..|s| - 1], t[..|t| - 1]);
    }
  }

  /** Python's `id[:8]`: the first eight characters, or all of a shorter id. */
  function TimePrefix(id: string): (p: string)
    ensures |p| == if |id| < TimeWidth then |id| else TimeWidth
    ensures p <= id
  {
    if |id| <= TimeWidth then id else id[..TimeWidth]
  }

  /** `parse_aid`: the time prefix read as a base-36 number of milliseconds
      after Time2000. */
  function ParseAid(id: string): (r: Result<int, AidError>)
    ensures r.Success? <==> id != [] && AllDigits36(TimePrefix(id))
    ensures r.Success? ==> Time2000 <= r.value < Time2000 + Pow36(TimeWidth)
    ensures r.Failure? ==> r.error == InvalidLiteral(TimePrefix(id))
  {
    var p := TimePrefix(id);
    if p != [] && AllDigits36(p) then
      Pow36Monotone(|p|, TimeWidth);
      Success(Base36(p) + Time2000)
    else
      Failure(InvalidLiteral(p))
  }

  /** Only the first eight characters matter. */
  lemma ParseAidPrefixOnly(a: string, b: string)
    requires |a| >= TimeWidth && |b| >= TimeWidth && a[..TimeWidth] == b[..TimeWidth]
    ensures ParseAid(a) == ParseAid(b)
  {
    assert TimePrefix(a) == TimePrefix(b);
  }

  /** An id and its lower-cased form decode alike: both fail, or both give
      the same time. */
  lemma ParseAidIgnoresCase(a: string, b: string)
    requires |b| == |a| && forall i :: 0 <= i < |a| ==> b[i] == LowerChar(a[i])
    ensures ParseAid(a).Success? == ParseAid(b).Success?
    ensures ParseAid(a).Success? ==> ParseAid(a).value == ParseAid(b).value
  {
    var p, q := TimePrefix(a), TimePrefix(b);
    assert forall i :: 0 <= i < |p| ==> q[i] == LowerChar(p[i]);
    forall i | 0 <= i < |p|
      ensures IsDigit36(p[i]) == IsDigit36(q[i])
    {
      if IsDigit36(p[i]) {
        DigitValueIgnoresCase(p[i]);
      }
    }
    if AllDigits36(p) {
      Base36IgnoresCase(p, q);
    }
  }

  /** A character outside the digit set, or an empty id, is an error. */
  lemma ParseAidRejects(id: string, i: nat)
    requires i < |id| && i < TimeWidth && !IsDigit36(id[i])
    ensures ParseAid(id).Failure?
  {
    assert TimePrefix(id)[i] == id[i];
  }

  // Reference encoding: the fixed-width lower-case base-36 prefix that an
  // aid identifier is assumed to start with.

  function DigitChar(v: nat): (ch: char)
    requires v < 36
    ensures IsDigit36(ch) && DigitValue(ch) == v
  {
    if v < 10 then ('0' as int + v) as char else ('a' as int + v - 10) as char
  }

  /** The `width` low base-36 digits of `n`, most significant first,
      padded with '0'. */
  function EncodeBase36(n: nat, width: nat): (s: string)
    ensures |s| == width && AllDigits36(s)
  {
    if width == 0 then [] else EncodeBase36(n / 36, width - 1) + [DigitChar(n % 36)]
  }

  lemma {:induction false} EncodeBase36RoundTrip(n: nat, width: nat)
    requires n < Pow36(width)
    ensures Base36(EncodeBase36(n, width)) == n
  {
    if width > 0 {
      var s := EncodeBase36(n, width);
      assert s[..|s| - 1] == EncodeBase36(n / 36, width - 1);
      EncodeBase36RoundTrip(n / 36, width - 1);
    }
  }

  /** The time prefix of an id created at `t` milliseconds since the Unix epoch. */
  function AidTimePrefix(t: int): (p: string)
    requires Time2000 <= t < Time2000 + Pow36(TimeWidth)
    ensures |p| == TimeWidth
  {
    EncodeBase36(t - Time2000, TimeWidth)
  }

  /** Decoding recovers the creation time of every id, whatever follows the prefix. */
  lemma ParseAidRoundTrip(t: int, rest: string)
    requires Time2000 <= t < Time2000 + Pow36(TimeWidth)
    ensures ParseAid(AidTimePrefix(t) + rest) == Success(t)
  {
    var p := AidTimePrefix(t);
    assert TimePrefix(p + rest) == p;
    EncodeBase36RoundTrip(t - Time2000, TimeWidth);
  }

  /** The all-zero prefix is the epoch itself. */
  lemma ParseAidEpoch(rest: string)
    ensures ParseAid("00000000" + rest) == Success(Time2000)
  {
    assert AidTimePrefix(Time2000) == "00000000";
    ParseAidRoundTrip(Time2000, rest);
  }

  /** The digits an aid is minted with: 0-9 and the lower-case letters. */
  predicate IsLowerDigit36(ch: char) {
    '0' <= ch <= '9' || 'a' <= ch <= 'z'
  }

  lemma DigitCharOfValue(ch: char)
    requires IsLowerDigit36(ch)
    ensures DigitChar(DigitValue(ch)) == ch
  {
  }

  lemma DivModDigit(high: nat, d: nat)
    requires d < 36
    ensures (high * 36 + d) / 36 == high && (high * 36 + d) % 36 == d
  {
  }

  /** Re-encoding the value of a lower-case digit string gives it back. */
  lemma {:induction false} DecodeEncodeBase36(s: string)
    requires forall i :: 0 <= i < |s| ==> IsLowerDigit36(s[i])
    ensures AllDigits36(s) && EncodeBase36(Base36(s), |s|) == s
  {
    if s != [] {
      var init, last := s[..|s| - 1], s[|s| - 1];
      DecodeEncodeBase36(init);
      var high, d := Base36(init), DigitValue(last);
      assert Base36(s) == high * 36 + d;
      DivModDigit(high, d);
      DigitCharOfValue(last);
      assert EncodeBase36(Base36(s), |s|) == EncodeBase36(high, |init|) + [DigitChar(d)];
      assert s == init + [last];
    }
  }

  /** Every id whose first eight characters are lower-case digits decodes,
      and it is the id minted at the time it decodes to. */
  lemma ParseAidMintedAt(id: string)
    requires |id| >= TimeWidth
    requires forall i :: 0 <= i < TimeWidth ==> IsLowerDigit36(id[i])
    ensures ParseAid(id).Success?
    ensures id == AidTimePrefix(ParseAid(id).value) + id[TimeWidth..]
  {
    var p := id[..TimeWidth];
    assert TimePrefix(id) == p;
    DecodeEncodeBase36(p);
    assert id == p + id[TimeWidth..];
  }
}
