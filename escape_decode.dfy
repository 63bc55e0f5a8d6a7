/**
 * The terminal's escape decoder: bytes pass through one at a time; an ESC
 * starts buffering, and a buffered sequence ending in 'm' is recognised as
 * a foreground colour (ESC[38;2;r;g;bm), a background colour
 * (ESC[48;2;r;g;bm) or a reset (ESC[m). An unrecognised sequence, or one
 * that grows to the longest supported length, is handed back as its
 * buffered bytes, zero padded.
 */
module EscapeDecode {
  import opened Common

  const ESC: u8 := 0x1B
  const LBRACKET: u8 := 0x5B
  const LOWER_M: u8 := 0x6D
  const SEMICOLON: u8 := 0x3B
  const PLUS: u8 := 0x2B
  const DIGIT_0: u8 := 0x30

  /** The length of "\x1B[48;2;255;255;255m", the longest sequence understood. */
  const LONGEST_ESCAPE: nat := 19

  /** The framebuffer colour. */
  datatype Rgb = Rgb(r: u8, g: u8, b: u8)

  /** `DecodedPart`; `Nothing` is the source's `None` (the byte was buffered). */
  datatype DecodedPart = Byte(byte: u8) | Bytes(bytes: seq<u8>) | FgColor(color: Rgb) | BgColor(color: Rgb) | Reset | Nothing

  /** The start of a foreground colour sequence: ESC [ 3 8 ; 2 ; */
  const FG_PREFIX: seq<u8> := [ESC, LBRACKET, 0x33, 0x38, SEMICOLON, 0x32, SEMICOLON]
  /** The start of a background colour sequence: ESC [ 4 8 ; 2 ; */
  const BG_PREFIX: seq<u8> := [ESC, LBRACKET, 0x34, 0x38, SEMICOLON, 0x32, SEMICOLON]

  function Zeros(n: nat): (z: seq<u8>)
    ensures |z| == n && forall i :: 0 <= i < n ==> z[i] == 0
  {
    seq(n, _ => 0)
  }

  /** The buffer as `clear` hands it over: the buffered bytes, then zeros. */
  function Pad(p: seq<u8>): (r: seq<u8>)
    requires |p| <= LONGEST_ESCAPE
    ensures |r| == LONGEST_ESCAPE && r[..|p|] == p
    ensures forall i :: |p| <= i < LONGEST_ESCAPE ==> r[i] == 0
  {
    p + Zeros(LONGEST_ESCAPE - |p|)
  }

  predicate IsDigit(c: u8)
  {
    DIGIT_0 <= c <= DIGIT_0 + 9
  }

  /** Decimal digits onto `acc`, failing past 255. */
  function Digits(ds: seq<u8>, acc: u8): Option<u8>
  {
    if |ds| == 0 then Some(acc)
    else if !IsDigit(ds[0]) then None
    else
      var v := acc * 10 + (ds[0] - DIGIT_0);
      if v > 255 then None else Digits(ds[1..], v)
  }

  /** `str::parse::<u8>`: an optional '+', then at least one decimal digit, at most 255. */
  function ParseU8(s: seq<u8>): (r: Option<u8>)
    ensures r.Some? ==> |s| > 0
  {
    var ds := if |s| > 0 && s[0] == PLUS then s[1..] else s;
    if |ds| == 0 then None else Digits(ds, 0)
  }

  /** `split(|c| *c == b';')`: the pieces between separators, at least one. */
  function Split(s: seq<u8>): (r: seq<seq<u8>>)
    ensures |r| >= 1
  {
    if |s| == 0 then [[]]
    else if s[0] == SEMICOLON then [[]] + Split(s[1..])
    else
      var rest := Split(s[1..]);
      [[s[0]] + rest[0]] + rest[1..]
  }

  /** `parse_rgb_part`: the first three pieces as u8 values; later pieces are ignored. */
  function ParseRgb(rgb: seq<u8>): (r: Option<Rgb>)
    ensures r.Some? <==> |Split(rgb)| >= 3 && ParseU8(Split(rgb)[0]).Some?
                         && ParseU8(Split(rgb)[1]).Some? && ParseU8(Split(rgb)[2]).Some?
  {
    var parts := Split(rgb);
    if |parts| < 3 then None
    else
      match (ParseU8(parts[0]), ParseU8(parts[1]), ParseU8(parts[2]))
      case (Some(r), Some(g), Some(b)) => Some(Rgb(r, g, b))
      case _ => None
  }

  /**
   * The slice pattern `[prefix.., ref rgb @ .., b'm']`, matched byte by
   * byte: the colour parsed from what lies between `prefix` and the final
   * 'm', or None when the pattern does not match or the parse fails.
   */
  function ColorAfter(full: seq<u8>, prefix: seq<u8>): (r: Option<Rgb>)
    ensures r.Some? ==> |full| > |prefix| && full[..|prefix|] == prefix && full[|full| - 1] == LOWER_M
    decreases |prefix|
  {
    if |prefix| > 0 then
      if |full| > 0 && full[0] == prefix[0] then ColorAfter(full[1..], prefix[1..]) else None
    else if |full| > 0 && full[|full| - 1] == LOWER_M then ParseRgb(full[..|full| - 1])
    else None
  }

  /**
   * The `match` on a complete buffered sequence ending in 'm'. A failed
   * parse after the foreground prefix falls through to the later arms,
   * which cannot match it.
   */
  function Recognise(full: seq<u8>): (r: Option<DecodedPart>)
    ensures r.Some? ==> |full| > 0 && full[|full| - 1] == LOWER_M
    ensures r.Some? ==> (r.value.FgColor? && |full| > |FG_PREFIX| && full[..|FG_PREFIX|] == FG_PREFIX)
                        || (r.value.BgColor? && |full| > |BG_PREFIX| && full[..|BG_PREFIX|] == BG_PREFIX)
                        || (r.value == Reset && full == [ESC, LBRACKET, LOWER_M])
    ensures full == [ESC, LBRACKET, LOWER_M] ==> r == Some(Reset)
  {
    match ColorAfter(full, FG_PREFIX)
    case Some(c) => Some(FgColor(c))
    case None =>
      match ColorAfter(full, BG_PREFIX)
      case Some(c) => Some(BgColor(c))
      case None => if full == [ESC, LBRACKET, LOWER_M] then Some(Reset) else None
  }

  /** Once the whole prefix matched, what follows decides. */
  lemma {:induction false} ColorAfterPrefix(prefix: seq<u8>, rest: seq<u8>)
    ensures ColorAfter(prefix + rest, prefix) == ColorAfter(rest, [])
    decreases |prefix|
  {
    if |prefix| > 0 {
      assert (prefix + rest)[1..] == prefix[1..] + rest;
      ColorAfterPrefix(prefix[1..], rest);
    } else {
      assert prefix + rest == rest;
    }
  }

  /** A byte that differs from the prefix within it stops the match. */
  lemma {:induction false} ColorAfterDiffers(full: seq<u8>, prefix: seq<u8>, k: nat)
    requires k < |prefix| && k < |full| && full[..k] == prefix[..k] && full[k] != prefix[k]
    ensures ColorAfter(full, prefix) == None
    decreases k
  {
    if k > 0 {
      assert full[0] == full[..k][0];
      assert full[1..][..k - 1] == full[..k][1..];
      assert prefix[1..][..k - 1] == prefix[..k][1..];
      ColorAfterDiffers(full[1..], prefix[1..], k - 1);
    }
  }

  /** What a buffered sequence completed by 'm' produces: its meaning, or its bytes when not understood. */
  function Finish(full: seq<u8>): (r: DecodedPart)
    requires |full| <= LONGEST_ESCAPE
    ensures r != Nothing && !r.Byte?
    ensures r.Bytes? ==> r.bytes == Pad(full)
  {
    match Recognise(full)
    case Some(part) => part
    case None => Bytes(Pad(full))
  }

  /**
   * `next` on the buffered bytes `p`: the new buffered bytes and the part
   * produced. The buffer never holds more than `LONGEST_ESCAPE - 1` bytes.
   */
  function Step(p: seq<u8>, byte: u8): (r: (seq<u8>, DecodedPart))
    requires |p| < LONGEST_ESCAPE
    ensures |r.0| < LONGEST_ESCAPE
    ensures r.1 != Nothing ==> r.0 == []
    ensures r.1 == Nothing <==> r.0 != []
  {
    if |p| == 0 then
      if byte == ESC then ([ESC], Nothing) else ([], Byte(byte))
    else if |p| == 1 && byte == LBRACKET then (p + [byte], Nothing)
    else if byte == LOWER_M then ([], Finish(p + [byte]))
    else if |p| >= LONGEST_ESCAPE - 1 then ([], Bytes(Pad(p + [byte])))
    else (p + [byte], Nothing)
  }

  /** `n` bytes buffered without output. */
  function Nothings(n: nat): (r: seq<DecodedPart>)
    ensures |r| == n && forall i :: 0 <= i < n ==> r[i] == Nothing
  {
    seq(n, _ => Nothing)
  }

  lemma NothingsCons(n: nat)
    ensures [Nothing] + Nothings(n) == Nothings(n + 1)
  {
    NothingsConcat(1, n);
    assert Nothings(1) == [Nothing];
  }

  lemma NothingsConcat(m: nat, n: nat)
    ensures Nothings(m) + Nothings(n) == Nothings(m + n)
  {
    var a, b := Nothings(m) + Nothings(n), Nothings(m + n);
    assert |a| == |b|;
    forall i | 0 <= i < |a|
      ensures a[i] == b[i]
    {
      if i < m {
        assert a[i] == Nothings(m)[i];
      } else {
        assert a[i] == Nothings(n)[i - m];
      }
    }
  }

  /** Several bytes through `next`, with every part produced. */
  function Feed(p: seq<u8>, bs: seq<u8>): (r: (seq<u8>, seq<DecodedPart>))
    requires |p| < LONGEST_ESCAPE
    ensures |r.0| < LONGEST_ESCAPE && |r.1| == |bs|
    decreases |bs|
  {
    if |bs| == 0 then (p, [])
    else
      var first := Step(p, bs[0]);
      var rest := Feed(first.0, bs[1..]);
      (rest.0, [first.1] + rest.1)
  }

  /** One unfolding of `Feed`. */
  lemma FeedFirst(p: seq<u8>, bs: seq<u8>)
    requires |p| < LONGEST_ESCAPE && |bs| > 0
    ensures var first := Step(p, bs[0]);
            Feed(p, bs) == (Feed(first.0, bs[1..]).0, [first.1] + Feed(first.0, bs[1..]).1)
  {
  }

  /** A single byte through `Feed` is one `Step`. */
  lemma FeedOne(p: seq<u8>, b: u8)
    requires |p| < LONGEST_ESCAPE
    ensures Feed(p, [b]) == (Step(p, b).0, [Step(p, b).1])
  {
    var first := Step(p, b);
    FeedFirst(p, [b]);
    assert [b][1..] == [];
    assert Feed(first.0, []) == (first.0, []);
    assert [first.1] + [] == [first.1];
    assert Feed(p, [b]) == (first.0, [first.1]);
  }

  lemma {:induction false} FeedConcat(p: seq<u8>, a: seq<u8>, b: seq<u8>)
    requires |p| < LONGEST_ESCAPE
    ensures Feed(p, a + b) == (Feed(Feed(p, a).0, b).0, Feed(p, a).1 + Feed(Feed(p, a).0, b).1)
    decreases |a|
  {
    if |a| == 0 {
      assert a + b == b;
      assert [] + Feed(p, b).1 == Feed(p, b).1;
    } else {
      assert (a + b)[1..] == a[1..] + b;
      var first := Step(p, a[0]);
      FeedConcat(first.0, a[1..], b);
      var mid := Feed(first.0, a[1..]);
      assert [first.1] + (mid.1 + Feed(mid.0, b).1) == ([first.1] + mid.1) + Feed(mid.0, b).1;
    }
  }

  /** `FeedConcat` with the state after the first part named. */
  lemma FeedThen(p: seq<u8>, a: seq<u8>, b: seq<u8>, q: seq<u8>, xs: seq<DecodedPart>)
    requires |p| < LONGEST_ESCAPE && Feed(p, a) == (q, xs)
    ensures |q| < LONGEST_ESCAPE && Feed(p, a + b) == (Feed(q, b).0, xs + Feed(q, b).1)
  {
    FeedConcat(p, a, b);
  }

  /** The last byte of several is one more `Step` from where the others left the decoder. */
  lemma FeedLast(p: seq<u8>, a: seq<u8>, b: u8)
    requires |p| < LONGEST_ESCAPE
    ensures var before := Feed(p, a);
            var last := Step(before.0, b);
            Feed(p, a + [b]) == (last.0, before.1 + [last.1])
  {
    FeedConcat(p, a, [b]);
    FeedOne(Feed(p, a).0, b);
  }

  /** Outside a sequence every byte but ESC passes straight through. */
  lemma IdleByte(byte: u8)
    requires byte != ESC
    ensures Step([], byte) == ([], Byte(byte))
  {
  }

  /** Bytes other than 'm' after ESC [ are only buffered while the buffer has room. */
  lemma {:induction false} FeedBuffered(p: seq<u8>, bs: seq<u8>)
    requires 2 <= |p| && |p| + |bs| < LONGEST_ESCAPE
    requires forall i :: 0 <= i < |bs| ==> bs[i] != LOWER_M
    ensures Feed(p, bs) == (p + bs, Nothings(|bs|))
    decreases |bs|
  {
    if |bs| > 0 {
      assert bs[0] != LOWER_M;
      assert Step(p, bs[0]) == (p + [bs[0]], Nothing);
      FeedFirst(p, bs);
      FeedBuffered(p + [bs[0]], bs[1..]);
      assert p + [bs[0]] + bs[1..] == p + bs;
      assert Feed(p, bs).0 == p + bs;
      assert [Nothing] + Nothings(|bs| - 1) == Nothings(|bs|);
      assert Feed(p, bs).1 == Nothings(|bs|);
    } else {
      assert p + bs == p;
      assert Nothings(0) == [];
    }
  }

  predicate Avoids(s: seq<u8>, x: u8)
  {
    forall i :: 0 <= i < |s| ==> s[i] != x
  }

  lemma AvoidsConcat(a: seq<u8>, b: seq<u8>, x: u8)
    requires Avoids(a, x) && Avoids(b, x)
    ensures Avoids(a + b, x)
  {
    assert forall i :: |a| <= i < |a + b| ==> (a + b)[i] == b[i - |a|];
  }

  /** The decimal digits of `x`, without leading zeros, as `Display` writes them. */
  function Decimal(x: u8): (d: seq<u8>)
    ensures 1 <= |d| <= 3 && forall i :: 0 <= i < |d| ==> IsDigit(d[i])
  {
    if x < 10 then [DIGIT_0 + x]
    else if x < 100 then [DIGIT_0 + x / 10, DIGIT_0 + x % 10]
    else [DIGIT_0 + x / 100, DIGIT_0 + x / 10 % 10, DIGIT_0 + x % 10]
  }

  /** Parsing gives back the number written in decimal. */
  lemma ParseDecimal(x: u8)
    ensures ParseU8(Decimal(x)) == Some(x)
  {
    var d := Decimal(x);
    if x < 10 {
      assert Digits(d[1..], x) == Some(x);
    } else if x < 100 {
      assert d[1..][1..] == [];
      assert Digits(d[1..], x / 10) == Digits(d[2..], x) == Some(x);
    } else {
      assert d[1..][1..] == d[2..] && d[2..][1..] == [];
      assert Digits(d[2..], x / 10) == Some(x);
      assert Digits(d[1..], x / 100) == Some(x);
    }
  }

  /** A piece without ';' followed by ';' splits off as the first piece. */
  lemma {:induction false} SplitConcat(a: seq<u8>, b: seq<u8>)
    requires forall i :: 0 <= i < |a| ==> a[i] != SEMICOLON
    ensures Split(a + [SEMICOLON] + b) == [a] + Split(b)
  {
    if |a| == 0 {
      assert a + [SEMICOLON] + b == [SEMICOLON] + b;
      assert ([SEMICOLON] + b)[1..] == b;
    } else {
      assert (a + [SEMICOLON] + b)[1..] == a[1..] + [SEMICOLON] + b;
      SplitConcat(a[1..], b);
      assert [a[0]] + a[1..] == a;
    }
  }

  lemma {:induction false} SplitNone(a: seq<u8>)
    requires forall i :: 0 <= i < |a| ==> a[i] != SEMICOLON
    ensures Split(a) == [a]
  {
    if |a| > 0 {
      SplitNone(a[1..]);
      assert [a[0]] + a[1..] == a;
    }
  }

  /** The colour part "r;g;b" written in decimal. */
  function RgbPart(c: Rgb): seq<u8>
  {
    Decimal(c.r) + [SEMICOLON] + Decimal(c.g) + [SEMICOLON] + Decimal(c.b)
  }

  /** Parsing the colour part gives back the colour. */
  lemma ParseRgbPart(c: Rgb)
    ensures ParseRgb(RgbPart(c)) == Some(c)
  {
    var r, g, b := Decimal(c.r), Decimal(c.g), Decimal(c.b);
    assert forall i :: 0 <= i < |r| ==> r[i] != SEMICOLON;
    assert forall i :: 0 <= i < |g| ==> g[i] != SEMICOLON;
    assert forall i :: 0 <= i < |b| ==> b[i] != SEMICOLON;
    assert RgbPart(c) == r + [SEMICOLON] + (g + [SEMICOLON] + b);
    SplitConcat(r, g + [SEMICOLON] + b);
    SplitConcat(g, b);
    SplitNone(b);
    ParseDecimal(c.r);
    ParseDecimal(c.g);
    ParseDecimal(c.b);
  }

  /** The full colour sequence for `prefix` (foreground or background). */
  function ColorSequence(prefix: seq<u8>, c: Rgb): seq<u8>
  {
    prefix + RgbPart(c) + [LOWER_M]
  }

  /** A complete colour sequence is recognised as the colour it carries. */
  lemma RecogniseColor(c: Rgb, background: bool)
    ensures var prefix := if background then BG_PREFIX else FG_PREFIX;
            Recognise(ColorSequence(prefix, c)) == Some(if background then BgColor(c) else FgColor(c))
  {
    var prefix := if background then BG_PREFIX else FG_PREFIX;
    var rest := RgbPart(c) + [LOWER_M];
    var full := ColorSequence(prefix, c);
    assert full == prefix + rest;
    ColorAfterPrefix(prefix, rest);
    assert rest[..|rest| - 1] == RgbPart(c);
    ParseRgbPart(c);
    assert ColorAfter(full, prefix) == Some(c);
    if background {
      assert full[..2] == FG_PREFIX[..2];
      ColorAfterDiffers(full, FG_PREFIX, 2);
    }
  }

  /** Nothing in the middle of a colour sequence is an 'm'. */
  lemma MiddleAvoidsM(prefix: seq<u8>, c: Rgb)
    requires prefix == FG_PREFIX || prefix == BG_PREFIX
    ensures Avoids(prefix[2..] + RgbPart(c), LOWER_M)
  {
    var r, g, b := Decimal(c.r), Decimal(c.g), Decimal(c.b);
    AvoidsConcat(prefix[2..], r, LOWER_M);
    AvoidsConcat(prefix[2..] + r, [SEMICOLON], LOWER_M);
    AvoidsConcat(prefix[2..] + r + [SEMICOLON], g, LOWER_M);
    AvoidsConcat(prefix[2..] + r + [SEMICOLON] + g, [SEMICOLON], LOWER_M);
    AvoidsConcat(prefix[2..] + r + [SEMICOLON] + g + [SEMICOLON], b, LOWER_M);
    assert prefix[2..] + RgbPart(c) == prefix[2..] + r + [SEMICOLON] + g + [SEMICOLON] + b;
  }

  /** A colour sequence starts with ESC [, ends with its only 'm', and fits the buffer. */
  lemma ColorSequenceShape(prefix: seq<u8>, c: Rgb)
    requires prefix == FG_PREFIX || prefix == BG_PREFIX
    ensures var s := ColorSequence(prefix, c);
            3 <= |s| <= LONGEST_ESCAPE && s[0] == ESC && s[1] == LBRACKET && s[|s| - 1] == LOWER_M
            && Avoids(s[2..|s| - 1], LOWER_M)
  {
    var s := ColorSequence(prefix, c);
    MiddleAvoidsM(prefix, c);
    assert s[2..|s| - 1] == prefix[2..] + RgbPart(c);
  }

  /** After ESC, a '[' and then bytes other than 'm' are all buffered while they fit. */
  lemma FeedAfterEsc(s: seq<u8>)
    requires 2 <= |s| < LONGEST_ESCAPE && s[0] == ESC && s[1] == LBRACKET && Avoids(s[2..], LOWER_M)
    ensures Feed([ESC], s[1..]) == (s, Nothings(|s| - 1))
  {
    var t := s[1..];
    FeedFirst([ESC], t);
    assert t[0] == LBRACKET && t[1..] == s[2..];
    assert [ESC] + [LBRACKET] == s[..2];
    assert Step([ESC], LBRACKET) == (s[..2], Nothing);
    FeedBuffered(s[..2], s[2..]);
    assert s[..2] + s[2..] == s;
    NothingsConcat(1, |s| - 2);
    assert Nothings(1) == [Nothing];
  }

  /** From the idle state, ESC is buffered and produces nothing. */
  lemma FeedEsc(s: seq<u8>)
    requires |s| > 0 && s[0] == ESC
    ensures var rest := Feed([ESC], s[1..]);
            Feed([], s) == (rest.0, [Nothing] + rest.1)
  {
    FeedFirst([], s);
    assert Step([], ESC) == ([ESC], Nothing);
  }

  /** ESC, '[' and then bytes other than 'm' are all buffered while they fit. */
  lemma FeedStarted(s: seq<u8>)
    requires 2 <= |s| < LONGEST_ESCAPE && s[0] == ESC && s[1] == LBRACKET && Avoids(s[2..], LOWER_M)
    ensures Feed([], s) == (s, Nothings(|s|))
  {
    FeedEsc(s);
    FeedAfterEsc(s);
    NothingsCons(|s| - 1);
  }

  /**
   * A sequence ESC [ ... m with no 'm' inside, fed from the idle state,
   * produces nothing until its 'm', which produces what `Finish` makes of
   * it, and leaves the decoder idle.
   */
  lemma FeedCompleted(s: seq<u8>)
    requires 3 <= |s| <= LONGEST_ESCAPE && s[0] == ESC && s[1] == LBRACKET
    requires Avoids(s[2..|s| - 1], LOWER_M) && s[|s| - 1] == LOWER_M
    ensures Feed([], s) == ([], Nothings(|s| - 1) + [Finish(s)])
  {
    var started := s[..|s| - 1];
    assert started[2..] == s[2..|s| - 1];
    assert started + [LOWER_M] == s;
    FeedStartedThenM(started);
  }

  /** The 'm' after a started sequence completes it. */
  lemma FeedStartedThenM(started: seq<u8>)
    requires 2 <= |started| < LONGEST_ESCAPE && started[0] == ESC && started[1] == LBRACKET
    requires Avoids(started[2..], LOWER_M)
    ensures Feed([], started + [LOWER_M]) == ([], Nothings(|started|) + [Finish(started + [LOWER_M])])
  {
    FeedStarted(started);
    FeedLast([], started, LOWER_M);
  }

  /**
   * Feeding a whole colour sequence from the idle state produces nothing
   * until its final 'm', which produces the colour, and leaves the decoder
   * idle.
   */
  lemma ColorRoundTrip(c: Rgb, background: bool)
    ensures var prefix := if background then BG_PREFIX else FG_PREFIX;
            var s := ColorSequence(prefix, c);
            Feed([], s) == ([], Nothings(|s| - 1) + [if background then BgColor(c) else FgColor(c)])
  {
    var prefix := if background then BG_PREFIX else FG_PREFIX;
    ColorSequenceShape(prefix, c);
    RecogniseColor(c, background);
    FeedCompleted(ColorSequence(prefix, c));
  }

  /** ESC [ m is the reset sequence. */
  lemma RecogniseReset()
    ensures Recognise([ESC, LBRACKET, LOWER_M]) == Some(Reset)
  {
    var full: seq<u8> := [ESC, LBRACKET, LOWER_M];
    assert full[..2] == FG_PREFIX[..2] == BG_PREFIX[..2];
    ColorAfterDiffers(full, FG_PREFIX, 2);
    ColorAfterDiffers(full, BG_PREFIX, 2);
  }

  /** ESC [ 1 m is not understood. */
  lemma RecogniseUnknown()
    ensures Recognise([ESC, LBRACKET, 0x31, LOWER_M]) == None
  {
    var full: seq<u8> := [ESC, LBRACKET, 0x31, LOWER_M];
    assert full[..2] == FG_PREFIX[..2] == BG_PREFIX[..2];
    ColorAfterDiffers(full, FG_PREFIX, 2);
    ColorAfterDiffers(full, BG_PREFIX, 2);
  }

  /** ESC [ m resets the colours. */
  lemma FeedReset()
    ensures Feed([], [ESC, LBRACKET, LOWER_M]) == ([], [Nothing, Nothing, Reset])
  {
    var full: seq<u8> := [ESC, LBRACKET, LOWER_M];
    assert full[2..|full| - 1] == [];
    FeedCompleted(full);
    RecogniseReset();
    assert Nothings(2) + [Reset] == [Nothing, Nothing, Reset];
  }

  /** ESC [ 1 m is not understood and comes back as its bytes, zero padded. */
  lemma FeedUnknown()
    ensures Feed([], [ESC, LBRACKET, 0x31, LOWER_M]) == ([], [Nothing, Nothing, Nothing, Bytes(Pad([ESC, LBRACKET, 0x31, LOWER_M]))])
  {
    var full: seq<u8> := [ESC, LBRACKET, 0x31, LOWER_M];
    assert full[2..|full| - 1] == [0x31];
    FeedCompleted(full);
    RecogniseUnknown();
    assert Nothings(3) + [Bytes(Pad(full))] == [Nothing, Nothing, Nothing, Bytes(Pad(full))];
  }

  /** `EscapeDecoder`: the fixed buffer and the count of buffered bytes. */
  class EscapeDecoder {
    const buf: array<u8>
    var len: nat

    /** At most `LONGEST_ESCAPE - 1` bytes are buffered, and the rest of the buffer is zero. */
    ghost predicate Valid()
      reads this, buf
    {
      buf.Length == LONGEST_ESCAPE && len < LONGEST_ESCAPE
      && forall i :: len <= i < LONGEST_ESCAPE ==> buf[i] == 0
    }

    function Pending(): seq<u8>
      requires Valid()
      reads this, buf
    {
      buf[..len]
    }

    constructor()
      ensures Valid() && Pending() == [] && fresh(buf)
    {
      buf := new u8[LONGEST_ESCAPE](_ => 0);
      len := 0;
    }

    /** `clear`: hands over the buffer (`mem::take` leaves zeros behind) and buffers nothing. */
    method Clear() returns (r: DecodedPart)
      requires buf.Length == LONGEST_ESCAPE && len <= LONGEST_ESCAPE
      requires forall i :: len <= i < LONGEST_ESCAPE ==> buf[i] == 0
      modifies this, buf
      ensures Valid() && Pending() == []
      ensures r == Bytes(Pad(old(buf[..len])))
    {
      assert buf[..] == Pad(buf[..len]);
      r := Bytes(buf[..]);
      len := 0;
      forall i | 0 <= i < buf.Length {
        buf[i] := 0;
      }
    }

    /** `next`. */
    method Next(byte: u8) returns (r: DecodedPart)
      requires Valid()
      modifies this, buf
      ensures Valid() && (Pending(), r) == Step(old(Pending()), byte)
    {
      if len == 0 {
        if byte == ESC {
          buf[0] := byte;
          len := 1;
          assert buf[..len] == [ESC];
          return Nothing;
        }
        return Byte(byte);
      }
      ghost var p := buf[..len];
      if len == 1 && byte == LBRACKET {
        buf[1] := byte;
        len := 2;
        assert buf[..len] == p + [byte];
        return Nothing;
      }
      var i := len;
      if byte == LOWER_M {
        buf[i] := byte;
        len := len + 1;
        assert buf[..len] == p + [byte];
        var result := Recognise(buf[..len]);
        var cleared := Clear();
        if result.Some? {
          return result.value;
        }
        return cleared;
      }
      if i >= LONGEST_ESCAPE - 1 {
        buf[i] := byte;
        len := len + 1;
        assert buf[..len] == p + [byte];
        r := Clear();
        return;
      }
      buf[i] := byte;
      len := len + 1;
      assert buf[..len] == p + [byte];
      return Nothing;
    }
  }
}
