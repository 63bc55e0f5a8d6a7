/** Log verbosity levels, their names and their order. */
module Log {
  import opened Common

  /** The levels in increasing verbosity; the declaration order is the ordering. */
  datatype LogLevel = None | Error | Warn | Info | Debug | Trace {

    /** The position in the declaration order (the derived `Ord`). */
    function Rank(): (r: nat)
      ensures r <= 5
    {
      match this
      case None => 0
      case Error => 1
      case Warn => 2
      case Info => 3
      case Debug => 4
      case Trace => 5
    }

    /** The lower-case name `parse` accepts for this level. */
    function Name(): string
    {
      match this
      case None => "none"
      case Error => "error"
      case Warn => "warn"
      case Info => "info"
      case Debug => "debug"
      case Trace => "trace"
    }
  }

  /** The derived ordering: `a < b` iff `a` is declared before `b`. */
  predicate Less(a: LogLevel, b: LogLevel) { a.Rank() < b.Rank() }

  /** `LogLevel::DEFAULT` and `Default::default()`. */
  const DEFAULT: LogLevel := Info

  function Default(): LogLevel
  {
    DEFAULT
  }

  /** Parses one of the six lower-case level names. */
  function Parse(s: string): (r: Option<LogLevel>)
    ensures r.Some? ==> r.value.Name() == s
    ensures r.None? ==> forall l: LogLevel :: l.Name() != s
  {
    match s
    case "none" => Some(LogLevel.None)
    case "error" => Some(Error)
    case "warn" => Some(Warn)
    case "info" => Some(Info)
    case "debug" => Some(Debug)
    case "trace" => Some(Trace)
    case _ => Option.None
  }

  /** Every level's name parses back to that level. */
  lemma ParseName(l: LogLevel)
    ensures Parse(l.Name()) == Some(l)
  {
  }

  /** The ordering is total and strict: None < Error < Warn < Info < Debug < Trace. */
  lemma OrderIsStrictTotal(a: LogLevel, b: LogLevel)
    ensures Less(a, b) || a == b || Less(b, a)
    ensures !(Less(a, b) && Less(b, a))
  {
  }

  lemma OrderChain()
    ensures Less(LogLevel.None, Error) && Less(Error, Warn) && Less(Warn, Info)
    ensures Less(Info, Debug) && Less(Debug, Trace)
  {
  }
}
