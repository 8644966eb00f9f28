/**
 * `ReadArgs`: the server's three settings, their defaults, and the
 * left-to-right scan of the command line that overwrites them.
 */
module ReadArgs {
  import opened Wrappers
  import opened Text

  /** The values of the properties `Dir`, `DbFilename` and `Port`. */
  datatype Settings = Settings(dir: string, dbFilename: string, port: int)

  const Defaults: Settings := Settings("/tmp", "dump.rdb", 6379)

  /**
   * The body of the loop at an index whose flag `flag` has a following
   * argument `value`; `None` when `int.Parse` throws on the port.
   */
  function Apply(flag: string, value: string, s: Settings): (r: Option<Settings>)
    ensures r.None? <==> flag == "--port" && ParseInt32(value).None?
    ensures r.Some? ==> r.value.dir == (if flag == "--dir" then value else s.dir)
    ensures r.Some? ==> r.value.dbFilename == (if flag == "--dbfilename" then value else s.dbFilename)
    ensures r.Some? ==> r.value.port == (if flag == "--port" then ParseInt32(value).value else s.port)
  {
    if flag == "--dir" then Some(s.(dir := value))
    else if flag == "--dbfilename" then Some(s.(dbFilename := value))
    else if flag == "--port" then
      match ParseInt32(value)
      case Some(p) => Some(s.(port := p))
      case None => None
    else Some(s)
  }

  /**
   * The settings once the loop has run over all of `args`, starting from `s`,
   * and whether it finished; when `int.Parse` throws, the settings are those
   * assigned before the throw. The index `i` acts only when `i + 1 < |args|`,
   * so the scan is a walk over the adjacent pairs `(args[i], args[i + 1])`.
   */
  function Scan(args: seq<string>, s: Settings): (r: (Settings, bool))
    ensures (forall j :: 0 <= j < |args| - 1 ==> args[j] != "--port") ==> r.1 && r.0.port == s.port
    decreases |args|
  {
    if |args| < 2 then (s, true)
    else
      var (t, ok) := Scan(args[..|args| - 1], s);
      if !ok then (t, false)
      else
        match Apply(args[|args| - 2], args[|args| - 1], t)
        case None => (t, false)
        case Some(u) => (u, true)
  }

  lemma {:induction false} FailureSticks(args: seq<string>, k: nat, s: Settings)
    requires k <= |args| && !Scan(args[..k], s).1
    ensures Scan(args, s) == Scan(args[..k], s)
    decreases |args| - k
  {
    if k < |args| {
      assert args[..k + 1][..k] == args[..k];
      FailureSticks(args, k + 1, s);
    } else {
      assert args[..k] == args;
    }
  }

  /** The static properties of `ReadArgs`, which the parser reassigns in place. */
  class Options {
    var dir: string
    var dbFilename: string
    var port: int

    function Current(): Settings
      reads this
    {
      Settings(dir, dbFilename, port)
    }

    /** The property initialisers: `/tmp`, `dump.rdb` and 6379. */
    constructor()
      ensures Current() == Defaults
    {
      dir := "/tmp";
      dbFilename := "dump.rdb";
      port := 6379;
    }

    /** `ParseCommandLineArguments`; `ok` is false when `int.Parse` threw on a port value. */
    method ParseCommandLineArguments(args: seq<string>) returns (ok: bool)
      modifies this
      ensures (Current(), ok) == Scan(args, old(Current()))
    {
      ghost var start := Current();
      var i := 0;
      while i < |args|
        invariant 0 <= i <= |args|
        invariant Scan(args[..if i + 1 <= |args| then i + 1 else |args|], start) == (Current(), true)
      {
        if i + 1 < |args| {
          assert args[..i + 2][..i + 1] == args[..i + 1];
        }
        if args[i] == "--dir" && i + 1 < |args| {
          dir := args[i + 1];
        } else if args[i] == "--dbfilename" && i + 1 < |args| {
          dbFilename := args[i + 1];
        } else if args[i] == "--port" && i + 1 < |args| {
          var parsed := ParseInt32(args[i + 1]);
          if parsed.None? {
            FailureSticks(args, i + 2, start);
            return false;
          }
          port := parsed.value;
        }
        i := i + 1;
      }
      assert args[..|args|] == args;
      return true;
    }
  }

  // ----- what the scan computes -----

  /** The argument after the last occurrence of `flag` that is not in final position. */
  function LastValue(args: seq<string>, flag: string): Option<string>
    decreases |args|
  {
    if |args| < 2 then None
    else if args[|args| - 2] == flag then Some(args[|args| - 1])
    else LastValue(args[..|args| - 1], flag)
  }

  /** LastValue picks the argument after the occurrence `j` of the flag when no later non-final occurrence exists. */
  lemma {:induction false} LastValueIsLast(args: seq<string>, flag: string, j: nat)
    requires j + 1 < |args| && args[j] == flag
    requires forall k :: j < k < |args| - 1 ==> args[k] != flag
    ensures LastValue(args, flag) == Some(args[j + 1])
    decreases |args|
  {
    if j + 2 < |args| {
      var prefix := args[..|args| - 1];
      LastValueIsLast(prefix, flag, j);
    }
  }

  /** LastValue finds nothing exactly when the flag occurs only in final position or not at all. */
  lemma {:induction false} LastValueNone(args: seq<string>, flag: string)
    ensures LastValue(args, flag).None? <==> forall j :: 0 <= j < |args| - 1 ==> args[j] != flag
    decreases |args|
  {
    if |args| >= 2 {
      var prefix := args[..|args| - 1];
      LastValueNone(prefix, flag);
      assert forall j :: 0 <= j < |prefix| - 1 ==> prefix[j] == args[j];
    }
  }

  /** Every `--port` with a following argument is followed by a parsable integer. */
  predicate PortsParse(args: seq<string>) {
    forall j :: 0 <= j < |args| - 1 && args[j] == "--port" ==> ParseInt32(args[j + 1]).Some?
  }

  lemma PortsParseStep(args: seq<string>)
    requires |args| >= 2
    ensures PortsParse(args) <==>
      PortsParse(args[..|args| - 1]) && (args[|args| - 2] == "--port" ==> ParseInt32(args[|args| - 1]).Some?)
  {
    var prefix := args[..|args| - 1];
    assert forall j :: 0 <= j < |prefix| ==> prefix[j] == args[j];
  }

  /** The scan finishes exactly when every `--port` that has a following argument is followed by a parsable integer. */
  lemma {:induction false} ScanSucceeds(args: seq<string>, s: Settings)
    ensures Scan(args, s).1 <==> forall j :: 0 <= j < |args| - 1 && args[j] == "--port" ==> ParseInt32(args[j + 1]).Some?
    decreases |args|
  {
    if |args| >= 2 {
      ScanSucceeds(args[..|args| - 1], s);
      PortsParseStep(args);
    }
  }

  /** When the scan finishes, each setting holds the value after the last occurrence of its flag, or its starting value when there is none. */
  lemma {:induction false} ScanLastWins(args: seq<string>, s: Settings)
    ensures Scan(args, s).1 ==>
      Scan(args, s).0 == Settings(
        LastValue(args, "--dir").GetOr(s.dir),
        LastValue(args, "--dbfilename").GetOr(s.dbFilename),
        match LastValue(args, "--port")
        case None => s.port
        case Some(v) => ParseInt32(v).GetOr(s.port))
    decreases |args|
  {
    if |args| >= 2 {
      ScanLastWins(args[..|args| - 1], s);
    }
  }

  /** Arguments that are none of the three flags leave the settings as they were. */
  lemma UnrecognisedChangeNothing(args: seq<string>, s: Settings)
    requires forall j :: 0 <= j < |args| ==> args[j] != "--dir" && args[j] != "--dbfilename" && args[j] != "--port"
    ensures Scan(args, s) == (s, true)
  {
    ScanSucceeds(args, s);
    ScanLastWins(args, s);
    LastValueNone(args, "--dir");
    LastValueNone(args, "--dbfilename");
    LastValueNone(args, "--port");
  }

  /** No arguments: the defaults stand. */
  lemma NoArguments()
    ensures Scan([], Defaults) == (Settings("/tmp", "dump.rdb", 6379), true)
  {
  }

  /** The value after a flag is examined as a flag too: `--dir --dbfilename x` sets both. */
  lemma ValueReexamined()
    ensures Scan(["--dir", "--dbfilename", "x"], Defaults) == (Settings("--dbfilename", "x", 6379), true)
  {
    assert ["--dir", "--dbfilename", "x"][..2] == ["--dir", "--dbfilename"];
    assert ["--dir", "--dbfilename"][..1] == ["--dir"];
  }

  /** A non-numeric port makes `int.Parse` throw. */
  lemma BadPortFails()
    ensures !Scan(["--port", "abc"], Defaults).1
  {
    ParseNeedsADigit("abc");
    assert ["--port", "abc"][..1] == ["--port"];
  }
}
