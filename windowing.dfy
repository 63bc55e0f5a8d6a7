/**
 * The line protocol between the window server and its clients: one
 * message, event or request per line, a type word, then space-separated
 * decimal fields. Parsing is the inverse of the `Display` form.
 */
module Windowing {
  import opened Common

  datatype Event = Keyboard(code: u8, state: u8) | Text(ch: char)
  datatype Message = NewWindow(windowId: usize) | EventMessage(event: Event)
  datatype Request = NewWindowRequest

  const SPACE: char := ' '

  // ---- `str::split_once(' ')` ---------------------------------------------

  /** The index of the first space, if any. */
  function FirstSpace(s: string): (r: Option<nat>)
    ensures r.Some? ==> r.value < |s| && s[r.value] == SPACE && SPACE !in s[..r.value]
    ensures r.None? ==> SPACE !in s
  {
    if |s| == 0 then None
    else if s[0] == SPACE then Some(0)
    else match FirstSpace(s[1..])
      case None => None
      case Some(i) => assert s[..i + 1] == [s[0]] + s[1..][..i]; Some(i + 1)
  }

  /** `split_once(' ')`: the text before and after the first space. */
  function SplitOnce(s: string): Option<(string, string)>
  {
    match FirstSpace(s)
    case None => None
    case Some(i) => Some((s[..i], s[i + 1..]))
  }

  /** `split_once(' ').unwrap_or((s, ""))`: the type word and the rest. */
  function Word(s: string): (string, string)
  {
    match SplitOnce(s)
    case None => (s, "")
    case Some(p) => p
  }

  /** Splitting at a space after a space-free word gives that word back. */
  lemma SplitAfterWord(a: string, b: string)
    requires SPACE !in a
    ensures SplitOnce(a + [SPACE] + b) == Some((a, b))
  {
    var s := a + [SPACE] + b;
    assert s[|a|] == SPACE;
    assert s[..|a|] == a;
    assert s[|a| + 1..] == b;
  }

  /** A space-free line is all type word. */
  lemma WordOfSpaceFree(a: string)
    requires SPACE !in a
    ensures Word(a) == (a, "")
  {
  }

  // ---- Decimal integers ----------------------------------------------------

  predicate IsDigit(c: char) { '0' <= c <= '9' }

  predicate AllDigits(s: string)
  {
    forall i :: 0 <= i < |s| ==> IsDigit(s[i])
  }

  /** The value of a string of decimal digits, most significant first. */
  function Value(s: string): nat
    requires AllDigits(s)
  {
    if |s| == 0 then 0
    else Value(s[..|s| - 1]) * 10 + (s[|s| - 1] as int - '0' as int)
  }

  /**
   * `str::parse` for an unsigned type whose largest value is `max`: an
   * optional `+`, then at least one digit and nothing else, and a value
   * that fits.
   */
  function ParseUnsigned(s: string, max: nat): (r: Option<nat>)
    ensures r.Some? ==> r.value <= max
  {
    var ds := if |s| > 0 && s[0] == '+' then s[1..] else s;
    if |ds| == 0 || !AllDigits(ds) || Value(ds) > max then None
    else Some(Value(ds))
  }

  function DigitChar(d: nat): (c: char)
    requires d < 10
    ensures IsDigit(c) && c as int - '0' as int == d
  {
    ('0' as int + d) as char
  }

  /** The `Display` form of an unsigned integer: decimal, no leading zeros. */
  function Show(n: nat): (s: string)
    ensures |s| > 0 && AllDigits(s)
  {
    if n < 10 then [DigitChar(n)] else Show(n / 10) + [DigitChar(n % 10)]
  }

  /** The digits of `Show(n)` read back as `n`. */
  lemma {:induction false} ValueOfShow(n: nat)
    ensures Value(Show(n)) == n
  {
    var s := Show(n);
    if n < 10 {
      assert s[..0] == [];
    } else {
      assert s[..|s| - 1] == Show(n / 10);
      ValueOfShow(n / 10);
    }
  }

  /** Parsing what `Show` prints gives the number back, when it fits the type. */
  lemma ParseShow(n: nat, max: nat)
    ensures ParseUnsigned(Show(n), max) == if n <= max then Some(n) else None
  {
    ValueOfShow(n);
    assert IsDigit(Show(n)[0]);
  }

  /** A number's decimal form has no space. */
  lemma ShowHasNoSpace(n: nat)
    ensures SPACE !in Show(n)
  {
    var s := Show(n);
    assert forall i :: 0 <= i < |s| ==> s[i] != SPACE;
  }

  // ---- Event ---------------------------------------------------------------

  /** `char::from_u32`: a Unicode scalar value, not a surrogate. */
  function CharFromU32(n: nat): (r: Option<char>)
    ensures r.Some? ==> r.value as int == n
    ensures r.None? <==> n >= 0x11_0000 || 0xD800 <= n < 0xE000
  {
    if n < 0xD800 || 0xE000 <= n < 0x11_0000 then Some(n as char) else None
  }

  /** `Event::parse`: `keyboard CODE STATE` or `text CODEPOINT`. */
  function ParseEvent(data: string): Option<Event>
  {
    var (ty, rest) := Word(data);
    if ty == "keyboard" then
      match SplitOnce(rest)
      case None => None
      case Some(fields) =>
        var code, state := ParseUnsigned(fields.0, 0xFF), ParseUnsigned(fields.1, 0xFF);
        if code.Some? && state.Some? then Some(Keyboard(code.value, state.value)) else None
    else if ty == "text" then
      match ParseUnsigned(rest, U32_MAX)
      case None => None
      case Some(n) =>
        match CharFromU32(n)
        case None => None
        case Some(ch) => Some(Text(ch))
    else None
  }

  /** Event's `Display` form. */
  function ShowEvent(e: Event): string
  {
    match e
    case Keyboard(code, state) => "keyboard " + Show(code) + " " + Show(state)
    case Text(ch) => "text " + Show(ch as int)
  }

  /** `Event::parse` inverts `Display` for both kinds of event. */
  lemma EventRoundTrip(e: Event)
    ensures ParseEvent(ShowEvent(e)) == Some(e)
  {
    match e
    case Keyboard(code, state) => KeyboardRoundTrip(code, state);
    case Text(ch) => TextRoundTrip(ch);
  }

  lemma KeyboardRoundTrip(code: u8, state: u8)
    ensures ParseEvent(ShowEvent(Keyboard(code, state))) == Some(Keyboard(code, state))
  {
    var rest := Show(code) + [SPACE] + Show(state);
    assert ShowEvent(Keyboard(code, state)) == "keyboard " + rest;
    KeyboardNeedsTwoBytes(rest, Keyboard(code, state));
    ShowHasNoSpace(code);
    SplitAfterWord(Show(code), Show(state));
    ParseShow(code, 0xFF);
    ParseShow(state, 0xFF);
  }

  lemma TextRoundTrip(ch: char)
    ensures ParseEvent(ShowEvent(Text(ch))) == Some(Text(ch))
  {
    TextNeedsScalarValue(Show(ch as int), Text(ch));
    ParseShow(ch as int, U32_MAX);
  }

  /**
   * A keyboard event is parsed exactly when the rest of the line splits
   * at a space into two numbers that fit a `u8`.
   */
  lemma KeyboardNeedsTwoBytes(rest: string, e: Event)
    ensures ParseEvent("keyboard " + rest) == Some(e) <==>
              SplitOnce(rest).Some? && e.Keyboard?
              && ParseUnsigned(SplitOnce(rest).value.0, 0xFF) == Some(e.code)
              && ParseUnsigned(SplitOnce(rest).value.1, 0xFF) == Some(e.state)
  {
    SplitAfterWord("keyboard", rest);
    assert "keyboard " + rest == "keyboard" + [SPACE] + rest;
  }

  /**
   * A text event is parsed exactly when the rest of the line is a `u32`
   * that is a Unicode scalar value, and the character is that value.
   */
  lemma TextNeedsScalarValue(rest: string, e: Event)
    ensures ParseEvent("text " + rest) == Some(e) <==>
              ParseUnsigned(rest, U32_MAX).Some? && e.Text?
              && e.ch as int == ParseUnsigned(rest, U32_MAX).value
  {
    SplitAfterWord("text", rest);
    assert "text " + rest == "text" + [SPACE] + rest;
  }

  /** An unknown event type word gives nothing. */
  lemma UnknownEvent(data: string)
    requires Word(data).0 != "keyboard" && Word(data).0 != "text"
    ensures ParseEvent(data) == None
  {
  }

  // ---- Message -------------------------------------------------------------

  /** `Message::parse`: `new_window ID` or `event ...`. */
  function ParseMessage(line: string): Option<Message>
  {
    var (ty, data) := Word(line);
    if ty == "new_window" then
      match ParseUnsigned(data, USIZE_MAX)
      case None => None
      case Some(id) => Some(NewWindow(id))
    else if ty == "event" then
      match ParseEvent(data)
      case None => None
      case Some(e) => Some(EventMessage(e))
    else None
  }

  /** Message's `Display` form. */
  function ShowMessage(m: Message): string
  {
    match m
    case NewWindow(id) => "new_window " + Show(id)
    case EventMessage(e) => "event " + ShowEvent(e)
  }

  /** `Message::parse` inverts `Display` for both variants. */
  lemma MessageRoundTrip(m: Message)
    ensures ParseMessage(ShowMessage(m)) == Some(m)
  {
    match m
    case NewWindow(id) => NewWindowRoundTrip(id);
    case EventMessage(e) =>
      EventMessageParse(ShowEvent(e));
      EventRoundTrip(e);
  }

  lemma NewWindowRoundTrip(id: usize)
    ensures ParseMessage(ShowMessage(NewWindow(id))) == Some(NewWindow(id))
  {
    NewWindowParse(Show(id));
    ParseShow(id, USIZE_MAX);
  }

  /** A `new_window` line is a window whose id is the rest of the line as a `usize`. */
  lemma NewWindowParse(data: string)
    ensures ParseMessage("new_window " + data) ==
              if ParseUnsigned(data, USIZE_MAX).Some? then Some(NewWindow(ParseUnsigned(data, USIZE_MAX).value)) else None
  {
    SplitAfterWord("new_window", data);
    assert "new_window " + data == "new_window" + [SPACE] + data;
  }

  /** An `event` line is the event that the rest of the line parses to. */
  lemma EventMessageParse(data: string)
    ensures ParseMessage("event " + data) ==
              if ParseEvent(data).Some? then Some(EventMessage(ParseEvent(data).value)) else None
  {
    SplitAfterWord("event", data);
    assert "event " + data == "event" + [SPACE] + data;
  }

  /** An unknown message type word gives nothing. */
  lemma UnknownMessage(line: string)
    requires Word(line).0 != "new_window" && Word(line).0 != "event"
    ensures ParseMessage(line) == None
  {
  }

  /** A `new_window` message without an id is rejected. */
  lemma NewWindowNeedsId()
    ensures ParseMessage("new_window") == None
    ensures ParseMessage("new_window ") == None
  {
    WordOfSpaceFree("new_window");
    NewWindowParse("");
    assert "new_window " + "" == "new_window ";
  }

  // ---- Request -------------------------------------------------------------

  /** `Request::parse`: only the type word matters. */
  function ParseRequest(line: string): Option<Request>
  {
    if Word(line).0 == "new_window" then Some(NewWindowRequest) else None
  }

  function ShowRequest(r: Request): string
  {
    "new_window"
  }

  /** `Request::parse` inverts `Display`; anything after the type word is ignored. */
  lemma RequestRoundTrip(r: Request, rest: string)
    ensures ParseRequest(ShowRequest(r)) == Some(r)
    ensures ParseRequest(ShowRequest(r) + " " + rest) == Some(r)
  {
    WordOfSpaceFree("new_window");
    SplitAfterWord("new_window", rest);
    assert "new_window" + " " + rest == "new_window" + [SPACE] + rest;
  }

  /** An unknown request type word gives nothing. */
  lemma UnknownRequest(line: string)
    requires Word(line).0 != "new_window"
    ensures ParseRequest(line) == None
  {
  }
}
