/** The bounded, insertion-ordered telemetry history (`telemetryBuffer`, `logTelemetry`). */
module History {
  import opened Wrappers

  /** `MAX_BUFFER_SIZE`: the number of entries the history keeps. */
  const MaxBufferSize: nat := 1000

  /** `logTelemetry`: push `m`, then drop the first (oldest) entry if the history
      has grown past its capacity. */
  function LogTelemetry<T>(buffer: seq<T>, m: T): (r: seq<T>)
    ensures |buffer| < MaxBufferSize ==> |r| == |buffer| + 1
    ensures |buffer| >= MaxBufferSize ==> |r| == |buffer|
    ensures |buffer| <= MaxBufferSize ==> |r| <= MaxBufferSize
    ensures r[|r| - 1] == m
    ensures r[..|r| - 1] == buffer[|buffer| + 1 - |r|..]
  {
    var pushed := buffer + [m];
    if |pushed| > MaxBufferSize then pushed[1..] else pushed
  }

  /** The most recent `MaxBufferSize` entries of `xs`, oldest first. */
  function Window<T>(xs: seq<T>): seq<T> {
    if |xs| <= MaxBufferSize then xs else xs[|xs| - MaxBufferSize..]
  }

  /** The history after `logTelemetry` has been called on each of `ms` in order. */
  function LogAll<T>(buffer: seq<T>, ms: seq<T>): (r: seq<T>)
    ensures |buffer| <= MaxBufferSize ==> |r| <= MaxBufferSize
    ensures |ms| > 0 ==> |r| > 0
    ensures |ms| > 0 ==> r[|r| - 1] == ms[|ms| - 1]
    decreases |ms|
  {
    if ms == [] then buffer else LogAll(LogTelemetry(buffer, ms[0]), ms[1..])
  }

  /** The last entry of the history, if any. */
  function Latest<T>(buffer: seq<T>): (r: Option<T>)
    ensures r == None <==> buffer == []
    ensures r.Some? ==> r.value == buffer[|buffer| - 1]
  {
    if |buffer| == 0 then None else Some(buffer[|buffer| - 1])
  }

  /** On a full history, one call evicts exactly the oldest entry and keeps the length. */
  lemma LogOnFullEvictsOldest<T>(buffer: seq<T>, m: T)
    requires |buffer| == MaxBufferSize
    ensures LogTelemetry(buffer, m) == buffer[1..] + [m]
    ensures |LogTelemetry(buffer, m)| == MaxBufferSize
  {
  }

  /** One call on a history within capacity keeps exactly the newest entries. */
  lemma LogIsWindow<T>(buffer: seq<T>, m: T)
    requires |buffer| <= MaxBufferSize
    ensures LogTelemetry(buffer, m) == Window(buffer + [m])
  {
  }

  /** Trimming to the window before appending more does not change the final window. */
  lemma WindowOfWindow<T>(xs: seq<T>, ys: seq<T>)
    ensures Window(Window(xs) + ys) == Window(xs + ys)
  {
  }

  /** After any sequence of calls, the history holds exactly the newest `MaxBufferSize`
      entries ever logged, in logging order: eviction never drops a newer entry
      before an older one and never reorders or alters an entry. */
  lemma {:induction false} LogAllKeepsNewest<T>(buffer: seq<T>, ms: seq<T>)
    requires |buffer| <= MaxBufferSize
    ensures LogAll(buffer, ms) == Window(buffer + ms)
    decreases |ms|
  {
    if ms == [] {
      assert buffer + ms == buffer;
    } else {
      var w := buffer + [ms[0]];
      var rest := ms[1..];
      var next := LogTelemetry(buffer, ms[0]);
      assert next == Window(w) by { LogIsWindow(buffer, ms[0]); }
      assert LogAll(buffer, ms) == LogAll(next, rest);
      LogAllKeepsNewest(next, rest);
      assert Window(next + rest) == Window(w + rest) by { WindowOfWindow(w, rest); }
      SplitFirst(buffer, ms);
    }
  }

  lemma SplitFirst<T>(buffer: seq<T>, ms: seq<T>)
    requires ms != []
    ensures buffer + [ms[0]] + ms[1..] == buffer + ms
  {
  }

  /** The newest entry is never the one evicted: it is what `Latest` reports. */
  lemma LatestAfterLog<T>(buffer: seq<T>, m: T)
    ensures Latest(LogTelemetry(buffer, m)) == Some(m)
  {
  }
}
