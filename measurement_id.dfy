/**
 * Identity of a candle in the time-series store.
 *
 * The importer tags every entry with the SHA-1 hex digest of the string
 * `symbol@exchange_domain:open_time,close_time`, the two times being the
 * candle's epoch milliseconds rendered by Python's `str`. The digest itself
 * is a foreign call and is passed in as a function; what this module pins
 * down is the pre-image, and that it determines its four components.
 */
module MeasurementId {
  import opened Wrappers

  /** The four values the identity is computed from. */
  datatype Key = Key(symbol: string, exchangeDomain: string, openTime: int, closeTime: int)

  function DigitChar(d: nat): char
    requires d < 10
  {
    ('0' as int + d) as char
  }

  function DigitValue(c: char): int {
    c as int - '0' as int
  }

  /** Decimal rendering of a natural number, without leading zeros. */
  function NatToString(n: nat): (s: string)
    ensures |s| > 0
    ensures forall i :: 0 <= i < |s| ==> '0' <= s[i] <= '9'
    decreases n
  {
    if n < 10 then [DigitChar(n)] else NatToString(n / 10) + [DigitChar(n % 10)]
  }

  /** Python's `str` of an integer: a minus sign for negatives, then the digits. */
  function IntToString(i: int): (s: string)
    ensures |s| > 0
    ensures forall k :: 0 <= k < |s| ==> s[k] == '-' || '0' <= s[k] <= '9'
  {
    if i < 0 then "-" + NatToString(-i) else NatToString(i)
  }

  /** Value of a string of decimal digits, read most significant first. */
  function DigitsValue(s: string): int
    decreases |s|
  {
    if s == [] then 0 else DigitsValue(s[..|s| - 1]) * 10 + DigitValue(s[|s| - 1])
  }

  /** Reads back what `IntToString` renders. */
  function ParseInt(s: string): int {
    if |s| > 0 && s[0] == '-' then -DigitsValue(s[1..]) else DigitsValue(s)
  }

  lemma {:induction false} DigitsValueOfNatToString(n: nat)
    ensures DigitsValue(NatToString(n)) == n
    decreases n
  {
    var s := NatToString(n);
    if n >= 10 {
      DigitsValueOfNatToString(n / 10);
      assert s[..|s| - 1] == NatToString(n / 10);
    }
  }

  /** Rendering an integer and reading it back gives the integer. */
  lemma ParseIntToString(i: int)
    ensures ParseInt(IntToString(i)) == i
  {
    if i < 0 {
      DigitsValueOfNatToString(-i);
      assert IntToString(i)[1..] == NatToString(-i);
    } else {
      DigitsValueOfNatToString(i);
    }
  }

  /** Position of the first `c` in `s`, if any. */
  function FirstIndexOf(s: string, c: char): (r: Option<nat>)
    ensures r.Some? ==> r.value < |s| && s[r.value] == c && c !in s[..r.value]
    ensures r.None? ==> c !in s
    decreases |s|
  {
    if s == [] then None
    else if s[0] == c then Some(0)
    else match FirstIndexOf(s[1..], c)
      case None => None
      case Some(k) => Some(k + 1)
  }

  /** Position of the last `c` in `s`, if any. */
  function LastIndexOf(s: string, c: char): (r: Option<nat>)
    ensures r.Some? ==> r.value < |s| && s[r.value] == c && c !in s[r.value + 1..]
    ensures r.None? ==> c !in s
    decreases |s|
  {
    if s == [] then None
    else if s[|s| - 1] == c then Some(|s| - 1)
    else LastIndexOf(s[..|s| - 1], c)
  }

  /** The string whose SHA-1 digest becomes the `measurementId` tag. */
  function PreImage(k: Key): string {
    k.symbol + "@" + PreImageTail(k.exchangeDomain, k.openTime, k.closeTime)
  }

  /** The part of the pre-image after the '@'. */
  function PreImageTail(exchangeDomain: string, openTime: int, closeTime: int): string {
    exchangeDomain + ":" + IntToString(openTime) + "," + IntToString(closeTime)
  }

  /** Splits `open,close` at the first ','. */
  function DecodeTimes(times: string): Option<(int, int)> {
    match FirstIndexOf(times, ',')
    case None => None
    case Some(comma) => Some((ParseInt(times[..comma]), ParseInt(times[comma + 1..])))
  }

  /** Splits `domain:open,close` at the last ':'. */
  function DecodeTail(rest: string): Option<(string, int, int)> {
    match LastIndexOf(rest, ':')
    case None => None
    case Some(colon) =>
      match DecodeTimes(rest[colon + 1..])
      case None => None
      case Some(t) => Some((rest[..colon], t.0, t.1))
  }

  /**
   * Splits a pre-image back into its components: the symbol ends at the
   * first '@', the domain at the last ':', the open time at the first ','.
   */
  function Decode(s: string): Option<Key> {
    match FirstIndexOf(s, '@')
    case None => None
    case Some(at) =>
      match DecodeTail(s[at + 1..])
      case None => None
      case Some(t) => Some(Key(s[..at], t.0, t.1, t.2))
  }

  lemma FirstIndexOfSeparator(a: string, c: char, b: string)
    requires c !in a
    ensures FirstIndexOf(a + [c] + b, c) == Some(|a|)
  {
    var s := a + [c] + b;
    assert s[|a|] == c;
    assert s[..|a|] == a;
  }

  lemma LastIndexOfSeparator(a: string, c: char, b: string)
    requires c !in b
    ensures LastIndexOf(a + [c] + b, c) == Some(|a|)
  {
    var s := a + [c] + b;
    assert s[|a|] == c;
    assert s[|a| + 1..] == b;
  }

  lemma DecodeTimesOf(openTime: int, closeTime: int)
    ensures DecodeTimes(IntToString(openTime) + "," + IntToString(closeTime)) == Some((openTime, closeTime))
  {
    var open, close := IntToString(openTime), IntToString(closeTime);
    var times := open + "," + close;
    assert ',' !in open;
    assert times == open + [','] + close;
    FirstIndexOfSeparator(open, ',', close);
    assert times[..|open|] == open;
    assert times[|open| + 1..] == close;
    ParseIntToString(openTime);
    ParseIntToString(closeTime);
  }

  lemma DecodeTailOf(domain: string, openTime: int, closeTime: int)
    ensures DecodeTail(PreImageTail(domain, openTime, closeTime)) == Some((domain, openTime, closeTime))
  {
    var times := IntToString(openTime) + "," + IntToString(closeTime);
    var rest := PreImageTail(domain, openTime, closeTime);
    assert rest == domain + [':'] + times;
    assert ':' !in times;
    LastIndexOfSeparator(domain, ':', times);
    assert rest[..|domain|] == domain;
    assert rest[|domain| + 1..] == times;
    DecodeTimesOf(openTime, closeTime);
  }

  /**
   * The pre-image determines symbol, domain and both times, provided the
   * symbol holds no '@' (exchange symbols are alphanumeric).
   */
  lemma DecodePreImage(k: Key)
    requires '@' !in k.symbol
    ensures Decode(PreImage(k)) == Some(k)
  {
    var rest := PreImageTail(k.exchangeDomain, k.openTime, k.closeTime);
    var s := PreImage(k);
    assert s == k.symbol + ['@'] + rest;
    FirstIndexOfSeparator(k.symbol, '@', rest);
    assert s[..|k.symbol|] == k.symbol;
    assert s[|k.symbol| + 1..] == rest;
    DecodeTailOf(k.exchangeDomain, k.openTime, k.closeTime);
  }

  /** Distinct keys with '@'-free symbols have distinct pre-images. */
  lemma PreImageInjective(k1: Key, k2: Key)
    requires '@' !in k1.symbol && '@' !in k2.symbol
    requires PreImage(k1) == PreImage(k2)
    ensures k1 == k2
  {
    DecodePreImage(k1);
    DecodePreImage(k2);
  }

  /** The `measurementId` tag: the digest of the pre-image. */
  function MeasurementIdOf(sha1: string -> string, k: Key): string {
    sha1(PreImage(k))
  }

  /**
   * Without the '@'-free condition two different keys can share a
   * pre-image, and hence a measurement id.
   */
  lemma SymbolWithAtSignCollides()
    ensures Key("A@B", "C", 0, 60000) != Key("A", "B@C", 0, 60000)
    ensures PreImage(Key("A@B", "C", 0, 60000)) == PreImage(Key("A", "B@C", 0, 60000))
  {
  }
}
