/**
 * The local file cache in front of the exchange: the freshness decision of
 * `is_data_cached` and the per-symbol name of the historical cache file.
 *
 * The filesystem is left out: whether the file exists and its age are
 * parameters. The age is `datetime.now()` minus the local time of the
 * file's `getctime` (on POSIX the status-change time), in whole seconds,
 * floored; both are naive wall-clock times, so the age can be negative.
 */
module CacheGate {

  /** The default of `FILE_CACHE_MAX_TIME_MIN`. */
  const DefaultMaxAgeMinutes: int := 1

  const SecondsPerDay: int := 86400

  /**
   * A timedelta's `seconds` component for an age of `elapsed` whole
   * seconds: whole days are dropped, and a negative age (a `getctime`
   * later than the wall clock, e.g. across a daylight-saving change) is
   * normalised into the same range.
   */
  function SecondsWithinDay(elapsed: int): (s: int)
    ensures 0 <= s < SecondsPerDay
    ensures (elapsed - s) % SecondsPerDay == 0
  {
    elapsed % SecondsPerDay
  }

  /**
   * `is_data_cached` as written: false for a missing file, otherwise
   * whether the age's `seconds` component, in minutes, is within the
   * threshold.
   */
  predicate IsDataCached(fileExists: bool, elapsed: int, maxAgeMinutes: int) {
    fileExists && (SecondsWithinDay(elapsed) as real) / 60.0 <= maxAgeMinutes as real
  }

  /**
   * The decision in whole numbers: a present file counts as cached exactly
   * when its age modulo one day is at most `60 * maxAgeMinutes` seconds.
   */
  lemma IsDataCachedExactly(fileExists: bool, elapsed: int, maxAgeMinutes: int)
    ensures IsDataCached(fileExists, elapsed, maxAgeMinutes)
        <==> fileExists && elapsed % SecondsPerDay <= 60 * maxAgeMinutes
    ensures !fileExists ==> !IsDataCached(fileExists, elapsed, maxAgeMinutes)
  {
  }

  /** A present file of age zero is always cached for a non-negative threshold. */
  lemma NewFileIsCached(maxAgeMinutes: int)
    requires 0 <= maxAgeMinutes
    ensures IsDataCached(true, 0, maxAgeMinutes)
  {
  }

  /** The decision repeats every day, because whole days are dropped from the age. */
  lemma IsDataCachedRepeatsDaily(fileExists: bool, elapsed: int, maxAgeMinutes: int)
    ensures IsDataCached(fileExists, elapsed + SecondsPerDay, maxAgeMinutes)
        == IsDataCached(fileExists, elapsed, maxAgeMinutes)
  {
  }

  /**
   * The freshness test the code evidently intends: a present file is fresh when
   * its whole age, in minutes, is within the threshold.
   */
  predicate IsFresh(fileExists: bool, elapsed: int, maxAgeMinutes: int) {
    fileExists && (elapsed as real) / 60.0 <= maxAgeMinutes as real
  }

  /** The corrected test in whole numbers: the whole age is at most `60 * maxAgeMinutes` seconds. */
  lemma IsFreshExactly(fileExists: bool, elapsed: int, maxAgeMinutes: int)
    ensures IsFresh(fileExists, elapsed, maxAgeMinutes) <==> fileExists && elapsed <= 60 * maxAgeMinutes
  {
  }

  /** An older file is never fresher than a younger one. */
  lemma IsFreshAntitone(fileExists: bool, younger: int, older: int, maxAgeMinutes: int)
    requires younger <= older
    ensures IsFresh(fileExists, older, maxAgeMinutes) ==> IsFresh(fileExists, younger, maxAgeMinutes)
  {
  }

  /** Within the first day of a file's life the two tests agree. */
  lemma CachedAgreesWithFreshWithinADay(fileExists: bool, elapsed: int, maxAgeMinutes: int)
    requires 0 <= elapsed < SecondsPerDay
    ensures IsDataCached(fileExists, elapsed, maxAgeMinutes) == IsFresh(fileExists, elapsed, maxAgeMinutes)
  {
  }

  /**
   * With the default threshold of one minute, a file created exactly one
   * day ago is reported as cached, although it is 1440 minutes old.
   */
  lemma DayOldFileIsCached()
    ensures IsDataCached(true, SecondsPerDay, DefaultMaxAgeMinutes)
    ensures !IsFresh(true, SecondsPerDay, DefaultMaxAgeMinutes)
  {
  }

  // ---------------------------------------------------------------------
  // Name of the historical cache file
  // ---------------------------------------------------------------------

  const SymbolPlaceholder: string := "{symbol}"

  /** The default `exchange_historical_file_name` of `get_historical`. */
  const DefaultHistoricalTemplate: string := "historical_file_{symbol}.json"

  /**
   * `str.replace`: every occurrence of `pattern`, found scanning from the
   * left and not overlapping the previous one, becomes `replacement`.
   */
  function ReplaceAll(s: string, pattern: string, replacement: string): string
    requires |pattern| > 0
    decreases |s|
  {
    if |s| < |pattern| then s
    else if s[..|pattern|] == pattern then replacement + ReplaceAll(s[|pattern|..], pattern, replacement)
    else [s[0]] + ReplaceAll(s[1..], pattern, replacement)
  }

  /** The cache file name for `symbol`. */
  function HistoricalFileName(template: string, symbol: string): string {
    ReplaceAll(template, SymbolPlaceholder, symbol)
  }

  /** Text in which no occurrence of the pattern can start is copied unchanged. */
  lemma {:induction false} ReplaceAllCopiesPrefix(prefix: string, rest: string, pattern: string, replacement: string)
    requires |pattern| > 0 && pattern[0] !in prefix
    ensures ReplaceAll(prefix + rest, pattern, replacement) == prefix + ReplaceAll(rest, pattern, replacement)
    decreases |prefix|
  {
    if prefix == [] {
      assert prefix + rest == rest;
    } else {
      var s := prefix + rest;
      var tail := ReplaceAll(rest, pattern, replacement);
      assert s[1..] == prefix[1..] + rest;
      ReplaceAllCopiesPrefix(prefix[1..], rest, pattern, replacement);
      if |s| < |pattern| {
        assert tail == rest;
      } else {
        assert s[..|pattern|] != pattern by {
          assert s[..|pattern|][0] == prefix[0] != pattern[0];
        }
        calc {
          ReplaceAll(s, pattern, replacement);
          [s[0]] + ReplaceAll(s[1..], pattern, replacement);
          [prefix[0]] + (prefix[1..] + tail);
          { assert prefix == [prefix[0]] + prefix[1..]; }
          prefix + tail;
        }
      }
    }
  }

  /** A template without the placeholder's first character names the same file for every symbol. */
  lemma TemplateWithoutPlaceholder(template: string, symbol: string)
    requires '{' !in template
    ensures HistoricalFileName(template, symbol) == template
  {
    ReplaceAllCopiesPrefix(template, [], SymbolPlaceholder, symbol);
    assert template + [] == template;
  }

  /** The placeholder is replaced where it first occurs, and the scan goes on after it. */
  lemma {:induction false} PlaceholderReplaced(prefix: string, rest: string, symbol: string)
    requires '{' !in prefix
    ensures HistoricalFileName(prefix + SymbolPlaceholder + rest, symbol)
         == prefix + symbol + HistoricalFileName(rest, symbol)
  {
    var tail := SymbolPlaceholder + rest;
    assert prefix + SymbolPlaceholder + rest == prefix + tail;
    ReplaceAllCopiesPrefix(prefix, tail, SymbolPlaceholder, symbol);
    assert tail[..|SymbolPlaceholder|] == SymbolPlaceholder;
    assert tail[|SymbolPlaceholder|..] == rest;
  }

  /** With the default template the file is `historical_file_<symbol>.json`. */
  lemma DefaultHistoricalFileName(symbol: string)
    ensures HistoricalFileName(DefaultHistoricalTemplate, symbol) == "historical_file_" + symbol + ".json"
  {
    assert DefaultHistoricalTemplate == "historical_file_" + SymbolPlaceholder + ".json";
    PlaceholderReplaced("historical_file_", ".json", symbol);
  }
}
