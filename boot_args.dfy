/**
 * The kernel command line: whitespace-separated items; the only known
 * item is `log=...`, whose comma-separated values are a level for both
 * log devices or `serial=LEVEL` / `video=LEVEL` for one of them.
 * Anything not understood sets `hadUnrecognized` and is skipped.
 */
module BootArgs {
  import opened Common
  import Log

  datatype Arguments = Arguments(serial: Log.LogLevel, video: Log.LogLevel, hadUnrecognized: bool, cmdline: string)

  // ---- Splitting -----------------------------------------------------------

  /** What separates pieces: any Unicode white space (`char::is_whitespace`), or one character. */
  datatype Sep = Whitespace | Char(c: char)

  /** The characters with the Unicode `White_Space` property. */
  predicate IsWhitespace(c: char)
  {
    '\t' <= c <= '\r' || c == ' ' || c == '\U{85}' || c == '\U{A0}' || c == '\U{1680}'
    || '\U{2000}' <= c <= '\U{200A}' || c == '\U{2028}' || c == '\U{2029}'
    || c == '\U{202F}' || c == '\U{205F}' || c == '\U{3000}'
  }

  predicate IsSep(sep: Sep, c: char)
  {
    match sep
    case Whitespace => IsWhitespace(c)
    case Char(d) => c == d
  }

  predicate NoSep(s: string, sep: Sep)
  {
    forall i :: 0 <= i < |s| ==> !IsSep(sep, s[i])
  }

  /** The index of the first separator, if any. */
  function FirstSep(s: string, sep: Sep): (r: Option<nat>)
    ensures r.Some? ==> r.value < |s| && IsSep(sep, s[r.value]) && NoSep(s[..r.value], sep)
    ensures r.None? ==> NoSep(s, sep)
  {
    if |s| == 0 then None
    else if IsSep(sep, s[0]) then Some(0)
    else match FirstSep(s[1..], sep)
      case None => None
      case Some(i) => assert s[..i + 1] == [s[0]] + s[1..][..i]; Some(i + 1)
  }

  /** `str::split`: the pieces between separators, empty ones included; never an empty list. */
  function Split(s: string, sep: Sep): (pieces: seq<string>)
    ensures |pieces| > 0
    decreases |s|
  {
    match FirstSep(s, sep)
    case None => [s]
    case Some(i) => [s[..i]] + Split(s[i + 1..], sep)
  }

  /** The pieces joined back with `c` between them. */
  function Join(pieces: seq<string>, c: char): string
    requires |pieces| > 0
  {
    if |pieces| == 1 then pieces[0] else pieces[0] + [c] + Join(pieces[1..], c)
  }

  /** Splitting at a character and joining with it gives the string back. */
  lemma {:induction false} JoinSplit(s: string, c: char)
    ensures Join(Split(s, Char(c)), c) == s
    decreases |s|
  {
    match FirstSep(s, Char(c))
    case None =>
    case Some(i) =>
      JoinSplit(s[i + 1..], c);
      assert s == s[..i] + [c] + s[i + 1..];
  }

  /** A string without separators is one piece. */
  lemma SplitNoSep(s: string, sep: Sep)
    requires NoSep(s, sep)
    ensures Split(s, sep) == [s]
  {
  }

  /** A separator-free piece followed by a separator and more is split there. */
  lemma SplitAt(a: string, c: char, b: string, sep: Sep)
    requires NoSep(a, sep) && IsSep(sep, c)
    ensures Split(a + [c] + b, sep) == [a] + Split(b, sep)
  {
    var s := a + [c] + b;
    FirstSepAt(a, c, b, sep);
    assert s[..|a|] == a;
    assert s[|a| + 1..] == b;
  }

  lemma FirstSepAt(a: string, c: char, b: string, sep: Sep)
    requires NoSep(a, sep) && IsSep(sep, c)
    ensures FirstSep(a + [c] + b, sep) == Some(|a|)
  {
    var s := a + [c] + b;
    assert s[|a|] == c;
    assert forall j :: 0 <= j < |a| ==> s[j] == a[j];
  }

  /** `split_once('=')`: the key and, after the first `=`, the value. */
  function SplitOnce(s: string): (string, Option<string>)
  {
    match FirstSep(s, Char('='))
    case None => (s, None)
    case Some(i) => (s[..i], Some(s[i + 1..]))
  }

  lemma SplitOnceAt(a: string, b: string)
    requires NoSep(a, Char('='))
    ensures SplitOnce(a + "=" + b) == (a, Some(b))
  {
    var s := a + "=" + b;
    assert s == a + ['='] + b;
    FirstSepAt(a, '=', b, Char('='));
    assert s[..|a|] == a;
    assert s[|a| + 1..] == b;
  }

  // ---- The meaning of the items --------------------------------------------

  /** One comma-separated value of `log=`: a level for both devices, or `DEVICE=LEVEL`. */
  function LogValue(a: Arguments, v: string): (r: Arguments)
    ensures r.cmdline == a.cmdline && (a.hadUnrecognized ==> r.hadUnrecognized)
  {
    var kv := SplitOnce(v);
    if kv.1.Some? then
      var dev, level := kv.0, kv.1.value;
      if dev != "serial" && dev != "video" then a.(hadUnrecognized := true)
      else match Log.Parse(level)
        case None => a.(hadUnrecognized := true)
        case Some(l) => if dev == "serial" then a.(serial := l) else a.(video := l)
    else
      match Log.Parse(v)
      case None => a.(hadUnrecognized := true)
      case Some(l) => a.(serial := l, video := l)
  }

  /** The values of a `log=` item, in order. */
  function LogValues(a: Arguments, vs: seq<string>): (r: Arguments)
    ensures r.cmdline == a.cmdline && (a.hadUnrecognized ==> r.hadUnrecognized)
  {
    if vs == [] then a else LogValue(LogValues(a, vs[..|vs| - 1]), vs[|vs| - 1])
  }

  /** One whitespace-separated item: `log=VALUES`, or something unrecognised. */
  function Item(a: Arguments, item: string): (r: Arguments)
    ensures r.cmdline == a.cmdline && (a.hadUnrecognized ==> r.hadUnrecognized)
  {
    var kv := SplitOnce(item);
    if kv.0 != "log" then a.(hadUnrecognized := true)
    else match kv.1
      case None => a.(hadUnrecognized := true)
      case Some(vs) => LogValues(a, Split(vs, Char(',')))
  }

  function Items(a: Arguments, items: seq<string>): (r: Arguments)
    ensures r.cmdline == a.cmdline && (a.hadUnrecognized ==> r.hadUnrecognized)
  {
    if items == [] then a else Item(Items(a, items[..|items| - 1]), items[|items| - 1])
  }

  /** The defaults: both devices at `Info`, nothing unrecognised, and the command line itself. */
  function Initial(s: string): Arguments
  {
    Arguments(Log.Default(), Log.Default(), false, s)
  }

  /** What `Arguments::parse` computes for a command line. */
  function Parsed(s: string): Arguments
  {
    Items(Initial(s), Split(s, Whitespace))
  }

  // ---- `Arguments::parse` ----------------------------------------------------

  /** The values of one `log=` item applied in order (the inner loop). */
  method ApplyLogValues(a: Arguments, values: string) returns (r: Arguments)
    ensures r == LogValues(a, Split(values, Char(',')))
  {
    var vs := Split(values, Char(','));
    r := a;
    var j := 0;
    while j < |vs|
      invariant 0 <= j <= |vs|
      invariant r == LogValues(a, vs[..j])
    {
      assert vs[..j + 1][..j] == vs[..j];
      r := ApplyLogValue(r, vs[j]);
      j := j + 1;
    }
    assert vs[..|vs|] == vs;
  }

  /** One value of a `log=` item (the inner loop's body). */
  method ApplyLogValue(a: Arguments, v: string) returns (r: Arguments)
    ensures r == LogValue(a, v)
  {
    r := a;
    var kv := SplitOnce(v);
    if kv.1.Some? {
      var dev, level := kv.0, kv.1.value;
      if dev != "serial" && dev != "video" {
        r := r.(hadUnrecognized := true);
      } else {
        var l := Log.Parse(level);
        if l.None? {
          r := r.(hadUnrecognized := true);
        } else if dev == "serial" {
          r := r.(serial := l.value);
        } else {
          r := r.(video := l.value);
        }
      }
    } else {
      var l := Log.Parse(v);
      if l.None? {
        r := r.(hadUnrecognized := true);
      } else {
        r := r.(serial := l.value, video := l.value);
      }
    }
  }

  /** `Arguments::parse`: the items are applied in order to the defaults. */
  method Parse(s: string) returns (result: Arguments)
    ensures result == Parsed(s)
    ensures result.cmdline == s
  {
    var items := Split(s, Whitespace);
    result := Initial(s);
    var i := 0;
    while i < |items|
      invariant 0 <= i <= |items|
      invariant result == Items(Initial(s), items[..i])
    {
      assert items[..i + 1][..i] == items[..i];
      var kv := SplitOnce(items[i]);
      if kv.0 != "log" {
        result := result.(hadUnrecognized := true);
      } else if kv.1.None? {
        result := result.(hadUnrecognized := true);
      } else {
        result := ApplyLogValues(result, kv.1.value);
      }
      i := i + 1;
    }
    assert items[..|items|] == items;
  }

  // ---- Properties ------------------------------------------------------------

  /** A level name has no white space, comma or `=` in it. */
  lemma NameIsPlain(l: Log.LogLevel)
    ensures NoSep(l.Name(), Whitespace) && NoSep(l.Name(), Char(',')) && NoSep(l.Name(), Char('='))
  {
  }

  lemma NoSepJoin(a: string, c: char, b: string, sep: Sep)
    requires NoSep(a, sep) && !IsSep(sep, c) && NoSep(b, sep)
    ensures NoSep(a + [c] + b, sep)
  {
    var s := a + [c] + b;
    assert forall j :: 0 <= j < |s| ==> s[j] == (if j < |a| then a[j] else if j == |a| then c else b[j - |a| - 1]);
  }

  /** A command line without white space is a single item. */
  lemma ParsedOneItem(s: string)
    requires NoSep(s, Whitespace)
    ensures Parsed(s) == Item(Initial(s), s)
  {
    SplitNoSep(s, Whitespace);
    var items := [s];
    assert items[..0] == [];
    assert Items(Initial(s), items) == Item(Items(Initial(s), items[..0]), s);
  }

  /** A `log=` item applies its comma-separated values. */
  lemma LogItem(a: Arguments, vs: string)
    ensures Item(a, "log=" + vs) == LogValues(a, Split(vs, Char(',')))
  {
    assert NoSep("log", Char('='));
    assert "log=" + vs == "log" + "=" + vs;
    SplitOnceAt("log", vs);
  }

  lemma OneValue(a: Arguments, v: string)
    requires NoSep(v, Char(','))
    ensures LogValues(a, Split(v, Char(','))) == LogValue(a, v)
  {
    SplitNoSep(v, Char(','));
    var vs := [v];
    assert vs[..0] == [];
    assert LogValues(a, vs) == LogValue(LogValues(a, []), v);
  }

  lemma TwoValues(a: Arguments, v1: string, v2: string)
    requires NoSep(v1, Char(',')) && NoSep(v2, Char(','))
    ensures LogValues(a, Split(v1 + "," + v2, Char(','))) == LogValue(LogValue(a, v1), v2)
  {
    assert v1 + "," + v2 == v1 + [','] + v2;
    SplitAt(v1, ',', v2, Char(','));
    SplitNoSep(v2, Char(','));
    var vs := [v1, v2];
    assert vs[..1] == [v1] && vs[..1][..0] == [];
    assert LogValues(a, [v1]) == LogValue(LogValues(a, []), v1);
    assert LogValues(a, vs) == LogValue(LogValues(a, [v1]), v2);
  }

  /** A level name as a value sets both devices. */
  lemma LevelValue(a: Arguments, l: Log.LogLevel)
    ensures LogValue(a, l.Name()) == a.(serial := l, video := l)
  {
    NameIsPlain(l);
    Log.ParseName(l);
  }

  /** `log=LEVEL` sets both devices to that level and nothing is unrecognised. */
  lemma LogSetsBoth(l: Log.LogLevel)
    ensures Parsed("log=" + l.Name()) == Arguments(l, l, false, "log=" + l.Name())
  {
    var s := "log=" + l.Name();
    NameIsPlain(l);
    NoSepJoin("log", '=', l.Name(), Whitespace);
    assert s == "log" + ['='] + l.Name();
    ParsedOneItem(s);
    LogItem(Initial(s), l.Name());
    OneValue(Initial(s), l.Name());
    LevelValue(Initial(s), l);
  }

  /** `DEVICE=LEVEL` sets that device's level only. */
  lemma DeviceValue(a: Arguments, dev: string, l: Log.LogLevel)
    requires dev == "serial" || dev == "video"
    ensures LogValue(a, dev + "=" + l.Name()) ==
              if dev == "serial" then a.(serial := l) else a.(video := l)
  {
    SplitOnceAt(dev, l.Name());
    Log.ParseName(l);
  }

  lemma DeviceValuePlain(dev: string, l: Log.LogLevel)
    requires dev == "serial" || dev == "video"
    ensures NoSep(dev + "=" + l.Name(), Whitespace) && NoSep(dev + "=" + l.Name(), Char(','))
  {
    NameIsPlain(l);
    assert dev + "=" + l.Name() == dev + ['='] + l.Name();
    NoSepJoin(dev, '=', l.Name(), Whitespace);
    NoSepJoin(dev, '=', l.Name(), Char(','));
  }

  /** `log=serial=L1,video=L2` sets each device to its own level. */
  lemma LogPerDevice(l1: Log.LogLevel, l2: Log.LogLevel)
    ensures var s := "log=" + (("serial" + "=" + l1.Name()) + "," + ("video" + "=" + l2.Name()));
            Parsed(s) == Arguments(l1, l2, false, s)
  {
    var v1, v2 := "serial" + "=" + l1.Name(), "video" + "=" + l2.Name();
    var s := "log=" + (v1 + "," + v2);
    DeviceValuePlain("serial", l1);
    DeviceValuePlain("video", l2);
    TwoValueLine(v1, v2);
    TwoDevices(Initial(s), l1, l2);
  }

  lemma TwoDevices(a: Arguments, l1: Log.LogLevel, l2: Log.LogLevel)
    ensures LogValue(LogValue(a, "serial" + "=" + l1.Name()), "video" + "=" + l2.Name()) == a.(serial := l1, video := l2)
  {
    DeviceValue(a, "serial", l1);
    DeviceValue(a.(serial := l1), "video", l2);
  }

  /** A line `log=V1,V2` applies the two values in order. */
  lemma TwoValueLine(v1: string, v2: string)
    requires NoSep(v1, Whitespace) && NoSep(v2, Whitespace)
    requires NoSep(v1, Char(',')) && NoSep(v2, Char(','))
    ensures var s := "log=" + (v1 + "," + v2);
            Parsed(s) == LogValue(LogValue(Initial(s), v1), v2)
  {
    var s := "log=" + (v1 + "," + v2);
    TwoPlainValues(v1, v2);
    ParsedOneItem(s);
    LogItem(Initial(s), v1 + "," + v2);
    TwoValues(Initial(s), v1, v2);
  }

  lemma TwoPlainValues(v1: string, v2: string)
    requires NoSep(v1, Whitespace) && NoSep(v2, Whitespace)
    ensures NoSep("log=" + (v1 + "," + v2), Whitespace)
  {
    NoSepJoin(v1, ',', v2, Whitespace);
    assert v1 + "," + v2 == v1 + [','] + v2;
    NoSepJoin("log", '=', v1 + "," + v2, Whitespace);
    assert "log=" + (v1 + "," + v2) == "log" + ['='] + (v1 + "," + v2);
  }

  /** An item whose key is not `log` is unrecognised and changes no level. */
  lemma UnknownKey(a: Arguments, item: string)
    requires SplitOnce(item).0 != "log"
    ensures Item(a, item) == a.(hadUnrecognized := true)
  {
  }

  /** `log` without `=` is unrecognised and changes no level. */
  lemma LogWithoutValue(a: Arguments)
    ensures Item(a, "log") == a.(hadUnrecognized := true)
  {
    assert NoSep("log", Char('='));
  }

  /** A device other than `serial` or `video`, or a level that does not parse, is unrecognised. */
  lemma UnknownDeviceOrLevel(a: Arguments, dev: string, level: string)
    requires NoSep(dev, Char('='))
    requires (dev != "serial" && dev != "video") || Log.Parse(level).None?
    ensures LogValue(a, dev + "=" + level) == a.(hadUnrecognized := true)
  {
    SplitOnceAt(dev, level);
  }

  /** A value that is not a level name is unrecognised. */
  lemma UnknownLevel(a: Arguments, v: string)
    requires NoSep(v, Char('=')) && Log.Parse(v).None?
    ensures LogValue(a, v) == a.(hadUnrecognized := true)
  {
  }

  /**
   * Every piece between white space is an item, including the empty ones:
   * an empty command line, or two spaces in a row, count as unrecognised.
   */
  lemma EmptyItemIsUnrecognized()
    ensures Parsed("").hadUnrecognized
    ensures Parsed("") == Initial("").(hadUnrecognized := true)
  {
    assert Split("", Whitespace) == [""];
    assert [""][..0] == [];
    assert SplitOnce("") == ("", None);
  }

  /** Once an item is unrecognised the flag stays set, and the command line is kept. */
  lemma UnrecognizedSticks(s: string, items: seq<string>, k: nat)
    requires k < |items| && SplitOnce(items[k]).0 != "log"
    ensures Items(Initial(s), items).hadUnrecognized
    ensures Items(Initial(s), items).cmdline == s
  {
    StickyFrom(Initial(s), items, k);
  }

  lemma {:induction false} StickyFrom(a: Arguments, items: seq<string>, k: nat)
    requires k < |items| && SplitOnce(items[k]).0 != "log"
    ensures Items(a, items).hadUnrecognized
    decreases |items|
  {
    if k < |items| - 1 {
      StickyFrom(a, items[..|items| - 1], k);
    }
  }
}
