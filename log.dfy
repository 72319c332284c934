/**
 * The leveled logger: level constants, the symbol printed for each level,
 * the shortening of the caller's source path, and the filter that decides
 * whether a message is dropped, printed, or printed and then panics.
 */
module Log {
  import opened Wrappers
  import opened Text

  const Fatal: int := 0
  const Error: int := 1
  const Warn: int := 2
  const Info: int := 3
  const Debug: int := 4
  const Verbose: int := 5

  /** The level a fresh logger filters at. */
  const DefaultLevel: int := Info

  const LevelToSymbol: map<int, string> := map[
    Fatal := "FATAL  ",
    Error := "ERROR  ",
    Warn := "WARNING",
    Info := "INFO   ",
    Debug := "DEBUG  ",
    Verbose := "VERBOSE"
  ]

  /** The directory name whose last occurrence is cut off a caller's path. */
  const RepoMarker: string := "/pifuxelck-server-go/"

  /** What the caller lookup yields when it fails: ten question marks. */
  const UnknownContext: string := "??????????"

  /** The symbol of a level; a level without one borrows the VERBOSE symbol. */
  function Symbol(level: int): (s: string)
    ensures level in LevelToSymbol ==> s == LevelToSymbol[level]
    ensures level !in LevelToSymbol ==> s == LevelToSymbol[Verbose]
    ensures |s| == 7
  {
    var symbol := if level in LevelToSymbol then LevelToSymbol[level] else "";
    if symbol == "" then LevelToSymbol[Verbose] else symbol
  }

  /** Drops everything up to and including the last occurrence of needle. */
  function Chop(haystack: string, needle: string): (r: string)
    ensures |r| <= |haystack| && r == haystack[|haystack| - |r|..]
    ensures (forall j :: !OccursAt(haystack, needle, j)) ==> r == haystack
    ensures (exists j :: OccursAt(haystack, needle, j)) ==>
              |r| + |needle| <= |haystack|
              && OccursAt(haystack, needle, |haystack| - |r| - |needle|)
              && forall j :: |haystack| - |r| - |needle| < j ==> !OccursAt(haystack, needle, j)
  {
    var i := LastIndex(haystack, needle);
    if i < 0 then haystack else haystack[i + |needle|..]
  }

  /** Every segment but the last is non-empty, so it has a first character. */
  predicate Abbreviable(segments: seq<string>)
  {
    forall i :: 0 <= i < |segments| - 1 ==> segments[i] != ""
  }

  /** Every segment but the last cut to its first character. */
  function Abbreviate(segments: seq<string>): (r: seq<string>)
    requires Abbreviable(segments)
  {
    seq(|segments|, i requires 0 <= i < |segments| =>
      if i == |segments| - 1 then segments[i] else segments[i][..1])
  }

  /** What `compress` computes: None stands for the panic of slicing an empty segment. */
  function Compressed(path: string): (r: Option<string>)
  {
    var segments := Split(path);
    if Abbreviable(segments) then Some(Join(Abbreviate(segments))) else None
  }

  /**
   * The compressed path has as many segments as the path, the same last
   * segment, and every other segment cut to its first character; it exists
   * exactly when no segment but the last is empty.
   */
  lemma CompressedSegments(path: string)
    ensures Compressed(path).Some? <==> Abbreviable(Split(path))
    ensures Compressed(path).Some? ==>
              var p, q := Split(path), Split(Compressed(path).value);
              && |q| == |p|
              && q[|q| - 1] == p[|p| - 1]
              && forall i :: 0 <= i < |p| - 1 ==> |q[i]| == 1 && q[i][0] == p[i][0]
  {
    var p := Split(path);
    if Abbreviable(p) {
      var a := Abbreviate(p);
      assert NoSeparator(a) by {
        forall i | 0 <= i < |a| ensures '/' !in a[i] {
          if i < |p| - 1 {
            assert a[i] == p[i][..1];
            assert '/' !in p[i];
          }
        }
      }
      SplitJoin(a);
    }
  }

  /** compress: split on '/', cut each segment but the last in place, join. */
  method Compress(path: string) returns (r: Option<string>)
    ensures r == Compressed(path)
  {
    var segments := Split(path);
    var parts := new string[|segments|](i requires 0 <= i < |segments| => segments[i]);
    var i := 0;
    while i < parts.Length
      invariant 0 <= i <= parts.Length
      invariant forall j :: 0 <= j < i && j != parts.Length - 1 ==>
                  segments[j] != "" && parts[j] == segments[j][..1]
      invariant forall j :: 0 <= j < parts.Length && (i <= j || j == parts.Length - 1) ==>
                  parts[j] == segments[j]
    {
      if i != parts.Length - 1 {
        if |parts[i]| < 1 {
          // parts[i][0:1] on an empty segment panics
          return None;
        }
        parts[i] := parts[i][0..1];
      }
      i := i + 1;
    }
    assert parts[..] == Abbreviate(segments);
    r := Some(Join(parts[..]));
  }

  /** Where `runtime.Caller` says the logging call was made, when it can tell. */
  datatype Caller = Caller(file: string, line: nat)

  /**
   * The context of a log line: the compressed path and line of the caller,
   * or ten question marks when the caller is unknown. None stands for the
   * panic of compressing a path with an empty directory segment.
   */
  function Context(caller: Option<Caller>): (r: Option<string>)
  {
    match caller
    case None => Some(UnknownContext)
    case Some(c) =>
      match Compressed(Chop(c.file, RepoMarker))
      case None => None
      case Some(path) => Some(path + ":" + NatToString(c.line))
  }

  /** The context fails only on a known caller whose path does not compress; a known caller ends in its line. */
  lemma ContextCases(caller: Option<Caller>)
    ensures Context(caller).None? <==> caller.Some? && Compressed(Chop(caller.value.file, RepoMarker)).None?
    ensures caller.None? ==> Context(caller) == Some(UnknownContext)
    ensures caller.Some? && Context(caller).Some? ==>
              var suffix := ":" + NatToString(caller.value.line);
              var ctx := Context(caller).value;
              |ctx| >= |suffix| && ctx[|ctx| - |suffix|..] == suffix
  {
    if caller.Some? && Context(caller).Some? {
      var path := Compressed(Chop(caller.value.file, RepoMarker)).value;
      var suffix := ":" + NatToString(caller.value.line);
      assert Context(caller).value == path + suffix;
    }
  }

  /** The line written for a message: symbol, bracketed context, format. */
  function LogLine(level: int, context: string, format: string): (r: string)
  {
    Symbol(level) + " [" + context + "] " + format
  }

  /** A written line starts with the level's symbol and the opening bracket, and ends with the format. */
  lemma LogLineShape(level: int, context: string, format: string)
    ensures var prefix := Symbol(level) + " [";
            var line := LogLine(level, context, format);
            && |line| == |prefix| + |context| + 2 + |format|
            && line[..|prefix|] == prefix
            && line[|prefix|..|prefix| + |context|] == context
            && line[|line| - |format|..] == format
  {
    var prefix := Symbol(level) + " [";
    var line := LogLine(level, context, format);
    assert line == prefix + (context + ("] " + format));
  }

  /** The effect of one log call. */
  datatype LogOutcome =
    | Dropped                  // filtered out by the level
    | Printed(line: string)    // written with log.Printf
    | Panicked(line: string)   // written with log.Panicf, which then panics
    | SlicePanic               // compress panicked while building the context

  /**
   * The effect of one log call at the given filter level: dropped above the
   * filter, otherwise the line, printed at a positive level and panicking
   * at FATAL and below.
   */
  function Outcome(logLevel: int, level: int, format: string, caller: Option<Caller>): (r: LogOutcome)
    ensures r.Dropped? <==> level > logLevel
  {
    if level > logLevel then Dropped
    else
      match Context(caller)
      case None => SlicePanic
      case Some(ctx) => if level > 0 then Printed(LogLine(level, ctx, format)) else Panicked(LogLine(level, ctx, format))
  }

  /**
   * Raising the filter level never loses a message: whatever a lower
   * setting printed (or panicked on) a higher setting does the same, and
   * whatever a higher setting drops a lower setting drops too.
   */
  lemma FilterMonotone(low: int, high: int, level: int, format: string, caller: Option<Caller>)
    requires low <= high
    ensures Outcome(low, level, format, caller) != Dropped ==>
              Outcome(high, level, format, caller) == Outcome(low, level, format, caller)
    ensures Outcome(high, level, format, caller) == Dropped ==> Outcome(low, level, format, caller) == Dropped
  {
  }

  /** The leveled logger; `logLevel` is the package-level filter setting. */
  class Logger {
    var logLevel: int

    constructor ()
      ensures logLevel == DefaultLevel
    {
      logLevel := DefaultLevel;
    }

    method SetLogLevel(level: int)
      modifies this
      ensures logLevel == level
    {
      logLevel := level;
    }

    /**
     * logf: filter by level, build "<symbol> [<context>] <format>", print
     * it, or print it and panic at FATAL and below.
     */
    method Logf(level: int, format: string, caller: Option<Caller>) returns (out: LogOutcome)
      ensures out.Dropped? <==> level > logLevel
      ensures out.Printed? ==> 0 < level <= logLevel
      ensures out.Panicked? ==> level <= 0 && level <= logLevel
      ensures level <= logLevel ==>
                match Context(caller)
                case None => out == SlicePanic
                case Some(ctx) => out == (if level > 0 then Printed(LogLine(level, ctx, format))
                                          else Panicked(LogLine(level, ctx, format)))
      ensures out == Outcome(logLevel, level, format, caller)
    {
      if level > logLevel {
        return Dropped;
      }
      var context: string;
      if caller.None? {
        context := UnknownContext;
      } else {
        var path := Compress(Chop(caller.value.file, RepoMarker));
        if path.None? {
          return SlicePanic;
        }
        context := path.value + ":" + NatToString(caller.value.line);
      }
      var symbol := Symbol(level);
      var line := symbol + " [" + context + "] " + format;
      if level > 0 {
        out := Printed(line);
      } else {
        out := Panicked(line);
      }
    }
  }
}
