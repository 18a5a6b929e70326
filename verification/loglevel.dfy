/** The `--log-level` flag value (internal/flag/loglevel.go): a slog level
    that can only be set from one of four exact names. */
module LogLevel {
  import opened Results
  import opened Strings

  /** A slog level; slog numbers its named levels -4, 0, 4 and 8. */
  type Level = int

  const LevelDebug: Level := -4
  const LevelInfo: Level := 0
  const LevelWarn: Level := 4
  const LevelError: Level := 8

  /** The accepted names, in the order the error message lists them. */
  const LevelNames: seq<string> := ["debug", "info", "warn", "error"]

  /** The flag value: the level currently stored. The zero value stores
      level 0, that is Info. */
  datatype SlogLevelValue = SlogLevelValue(level: Level)

  /** The pre-packaged flag: its name, its usage text and its value. */
  datatype SlogLevelValueFlag = SlogLevelValueFlag(name: string, usage: string, value: SlogLevelValue)

  /** The level slog parses an accepted name to. */
  function LevelOf(name: string): Level
    requires name in LevelNames
  {
    if name == "debug" then LevelDebug
    else if name == "info" then LevelInfo
    else if name == "warn" then LevelWarn
    else LevelError
  }

  /** The accepted names joined for messages: "debug, info, warn, error". */
  function ValidNames(): (r: string)
    ensures r == "debug, info, warn, error"
  {
    Join(LevelNames, ", ")
  }

  /** `SlogLevelValueUsage`: the usage text lists the accepted names. */
  function Usage(): string
  {
    "The level to log at. Valid values are: " + ValidNames()
  }

  /** The message for a rejected name. */
  function InvalidLevelMessage(value: string): string
  {
    "invalid level " + value + ": must be one of: " + ValidNames()
  }

  /** `Set`: the new flag value and the error returned (None for nil). A
      name in the list, compared case-sensitively, stores its level; any
      other string is rejected with a message listing the valid names and
      leaves the stored level as it was. */
  function Set(v: SlogLevelValue, value: string): (r: (SlogLevelValue, Option<string>))
    ensures r.1.None? <==> value in LevelNames
    ensures r.1.None? ==> Get(r.0) == LevelOf(value)
    ensures r.1.Some? ==> r.0 == v
    ensures r.1.Some? ==> r.1.value == InvalidLevelMessage(value)
  {
    if value in LevelNames then (SlogLevelValue(LevelOf(value)), None)
    else (v, Some(InvalidLevelMessage(value)))
  }

  /** `Get`: the stored level. */
  function Get(v: SlogLevelValue): Level
  {
    v.level
  }

  /** `NewSlogLevelValueFlag`: the `log-level` flag, defaulting to Warn. */
  function NewSlogLevelValueFlag(): (r: SlogLevelValueFlag)
    ensures r.name == "log-level"
    ensures Get(r.value) == LevelWarn
    ensures r.usage == Usage()
  {
    SlogLevelValueFlag("log-level", Usage(), SlogLevelValue(LevelWarn))
  }

  /** Distinct accepted names set distinct levels, so `Get` after a
      successful `Set` tells which name was given. */
  lemma SetThenGetIdentifiesName(v: SlogLevelValue, a: string, b: string)
    requires a in LevelNames && b in LevelNames
    ensures Get(Set(v, a).0) == Get(Set(v, b).0) <==> a == b
  {
  }

  /** The four accepted names and the levels they set, as the tests
      expect them. */
  lemma AcceptedNames(v: SlogLevelValue)
    ensures Set(v, "debug") == (SlogLevelValue(LevelDebug), None)
    ensures Set(v, "info") == (SlogLevelValue(LevelInfo), None)
    ensures Set(v, "warn") == (SlogLevelValue(LevelWarn), None)
    ensures Set(v, "error") == (SlogLevelValue(LevelError), None)
  {
  }

  /** Unknown, empty and wrong-case names are rejected. */
  lemma RejectedNames(v: SlogLevelValue)
    ensures Set(v, "trace") == (v, Some(InvalidLevelMessage("trace")))
    ensures Set(v, "") == (v, Some(InvalidLevelMessage("")))
    ensures Set(v, "InFO") == (v, Some(InvalidLevelMessage("InFO")))
  {
    assert "trace" !in LevelNames;
    assert "" !in LevelNames;
    assert "InFO" !in LevelNames;
  }
}
