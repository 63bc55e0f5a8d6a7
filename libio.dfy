/**
 * The user-space I/O traits: `read_exact` and `write_all` repeat `read`
 * and `write` until the whole buffer has moved, retrying interrupted
 * calls; `BufReader` keeps a buffer of bytes read ahead, which
 * `fill_buf` refills when it is empty and `consume` drops from the
 * front, and `read_until` collects bytes up to a delimiter; `BufWriter`
 * collects written bytes and hands them to the inner writer on `flush`.
 *
 * The inner reader and writer belong to the environment. Each is given
 * a script: the answers of its next calls, either an error or a cap on
 * how many bytes the call moves; once the script is used up, every call
 * moves as many bytes as it can.
 */
module LibIo {
  import opened Common
  import opened SyscallErr
  import VfsDevice

  /**
   * How many bytes a `read` moves with `avail` bytes of input left and
   * room for `room` bytes, or the error it reports, when its script is
   * `script`.
   */
  function ReadAnswer(script: seq<Result<nat, Error>>, avail: nat, room: nat): (r: Result<nat, Error>)
    ensures r.Ok? ==> r.value <= room && r.value <= avail
    ensures script == [] ==> r == Ok(Min(room, avail))
  {
    if script == [] then Ok(Min(room, avail))
    else match script[0]
      case Err(e) => Err(e)
      case Ok(cap) => Ok(Min(Min(cap, room), avail))
  }

  /** How many of `len` bytes a `write` takes, or its error, when its script is `script`. */
  function WriteAnswer(script: seq<Result<nat, Error>>, len: nat): (r: Result<nat, Error>)
    ensures r.Ok? ==> r.value <= len
    ensures script == [] ==> r == Ok(len)
  {
    if script == [] then Ok(len)
    else match script[0]
      case Err(e) => Err(e)
      case Ok(cap) => Ok(Min(cap, len))
  }

  /** The script after one call: its first answer is used up. */
  function Rest(script: seq<Result<nat, Error>>): (r: seq<Result<nat, Error>>)
    ensures script == [] ==> r == []
    ensures script != [] ==> |r| == |script| - 1
  {
    if script == [] then [] else script[1..]
  }

  /** A `Read` implementor: the bytes it has yet to give, and its script. */
  class Reader {
    var input: seq<u8>
    var script: seq<Result<nat, Error>>

    constructor(input: seq<u8>, script: seq<Result<nat, Error>>)
      ensures this.input == input && this.script == script
    {
      this.input := input;
      this.script := script;
    }

    /** `read` into `buf[from..]`: the next bytes of the input, as the script allows. */
    method Read(buf: array<u8>, from: nat) returns (r: Result<nat, Error>)
      requires from <= buf.Length
      modifies this, buf
      ensures r == ReadAnswer(old(script), |old(input)|, buf.Length - from)
      ensures script == Rest(old(script))
      ensures r.Ok? ==> input == old(input)[r.value..]
      ensures r.Ok? ==> VfsDevice.Overwritten(buf[..], old(buf[..]), from, old(input)[..r.value])
      ensures r.Err? ==> input == old(input) && buf[..] == old(buf[..])
    {
      r := ReadAnswer(script, |input|, buf.Length - from);
      script := Rest(script);
      if r.Ok? {
        var n := r.value;
        var k := 0;
        while k < n
          modifies buf
          invariant 0 <= k <= n
          invariant VfsDevice.Overwritten(buf[..], old(buf[..]), from, input[..k])
        {
          buf[from + k] := input[k];
          k := k + 1;
        }
        input := input[n..];
      }
    }
  }

  /** A `Write` implementor: the bytes it has taken, and its script. */
  class Writer {
    var output: seq<u8>
    var script: seq<Result<nat, Error>>

    constructor(script: seq<Result<nat, Error>>)
      ensures output == [] && this.script == script
    {
      output := [];
      this.script := script;
    }

    /** `write`: takes the front of `data`, as the script allows. */
    method Write(data: seq<u8>) returns (r: Result<nat, Error>)
      modifies this
      ensures r == WriteAnswer(old(script), |data|)
      ensures script == Rest(old(script))
      ensures r.Ok? ==> output == old(output) + data[..r.value]
      ensures r.Err? ==> output == old(output)
    {
      r := WriteAnswer(script, |data|);
      script := Rest(script);
      if r.Ok? {
        output := output + data[..r.value];
      }
    }
  }

  /**
   * `read_exact`: reads until `buf` is full, retrying `INTERRUPTED`; a
   * read of nothing before that is `UNEXPECTED_EOF`, any other error is
   * passed on. The bytes taken from the input are at the front of `buf`;
   * it succeeds exactly when they fill it. Against a reader that never
   * fails or holds back, it succeeds exactly when the input is long
   * enough.
   */
  method ReadExact(rd: Reader, buf: array<u8>) returns (r: Result<(), Error>)
    modifies rd, buf
    ensures |rd.input| <= |old(rd.input)| && rd.input == old(rd.input)[|old(rd.input)| - |rd.input|..]
    ensures |old(rd.input)| - |rd.input| <= buf.Length
    ensures buf[..|old(rd.input)| - |rd.input|] == old(rd.input)[..|old(rd.input)| - |rd.input|]
    ensures r.Ok? ==> |old(rd.input)| - |rd.input| == buf.Length
    ensures r.Err? ==> |old(rd.input)| - |rd.input| < buf.Length
    ensures r.Err? ==> r.error != INTERRUPTED
    ensures old(rd.script) == [] ==> (r.Ok? <==> buf.Length <= |old(rd.input)|)
    ensures old(rd.script) == [] && r.Err? ==> r.error == UNEXPECTED_EOF
  {
    ghost var orig := rd.input;
    ghost var quiet := rd.script == [];
    var from := 0;
    while from < buf.Length
      invariant 0 <= from <= buf.Length && from <= |orig|
      invariant rd.input == orig[from..]
      invariant buf[..from] == orig[..from]
      invariant quiet ==> rd.script == []
      decreases |rd.script|, buf.Length - from
    {
      ghost var was := buf[..];
      var got := rd.Read(buf, from);
      if got == Ok(0) {
        break;
      }
      match got
      case Ok(n) =>
        FilledStep(orig, from, n, was, buf[..]);
        from := from + n;
      case Err(e) =>
        if e != INTERRUPTED {
          return Err(e);
        }
    }
    if from < buf.Length {
      return Err(UNEXPECTED_EOF);
    }
    r := Ok(());
  }

  /** A read of `n` more bytes into `buf` at `from` extends the filled front. */
  lemma FilledStep(orig: seq<u8>, from: nat, n: nat, was: seq<u8>, now: seq<u8>)
    requires from <= |orig| && from <= |was| && was[..from] == orig[..from]
    requires n <= |orig| - from
    requires VfsDevice.Overwritten(now, was, from, orig[from..][..n])
    ensures now[..from + n] == orig[..from + n]
  {
    assert orig[..from + n] == orig[..from] + orig[from..][..n];
  }

  /** `w` has taken the front of `buf` after what it held before, and no more. */
  ghost predicate TookPrefix(before: seq<u8>, after: seq<u8>, buf: seq<u8>)
  {
    |before| <= |after| <= |before| + |buf| && after == before + buf[..|after| - |before|]
  }

  /**
   * What `write_all` ends with when `left` bytes remain and the writer's
   * script is `script`: the result and how many of those bytes the writer
   * took. Each answer is used in turn: `INTERRUPTED` is retried, a write
   * of 0 bytes stops with `WRITE_ZERO`, any other error stops with that
   * error, and a write of `n` bytes leaves `left - n`.
   */
  function WriteAllOutcome(script: seq<Result<nat, Error>>, left: nat): (o: (Result<(), Error>, nat))
    ensures o.1 <= left
    ensures o.0.Ok? <==> o.1 == left
    ensures o.0.Err? ==> o.0.error != INTERRUPTED && (o.0.error == WRITE_ZERO || Err(o.0.error) in script)
    ensures script == [] ==> o == (Ok(()), left)
    decreases |script|, left
  {
    if left == 0 then (Ok(()), 0)
    else match WriteAnswer(script, left)
      case Ok(n) =>
        if n == 0 then (Err(WRITE_ZERO), 0)
        else
          var o := WriteAllOutcome(Rest(script), left - n);
          assert o.0.Err? && o.0.error != WRITE_ZERO ==> Err(o.0.error) in script by {
            if script != [] { assert Rest(script) == script[1..]; }
          }
          (o.0, n + o.1)
      case Err(e) =>
        assert script[0] == Err(e);
        if e == INTERRUPTED then
          var o := WriteAllOutcome(Rest(script), left);
          assert o.0.Err? && o.0.error != WRITE_ZERO ==> Err(o.0.error) in script by {
            assert Rest(script) == script[1..];
          }
          o
        else (Err(e), 0)
  }

  /**
   * When the writer's first answers are all `INTERRUPTED` and the next one
   * takes 0 bytes, `write_all` stops with `WRITE_ZERO` having written nothing.
   */
  lemma {:induction false} WriteZeroStops(script: seq<Result<nat, Error>>, left: nat, k: nat)
    requires left > 0 && k < |script| && script[k] == Ok(0)
    requires forall j :: 0 <= j < k ==> script[j] == Err(INTERRUPTED)
    ensures WriteAllOutcome(script, left) == (Err(WRITE_ZERO), 0)
    decreases k
  {
    if k > 0 {
      assert script[0] == Err(INTERRUPTED);
      WriteZeroStops(script[1..], left, k - 1);
    }
  }

  lemma OutcomeTook(script: seq<Result<nat, Error>>, left: nat, n: nat)
    requires left > 0 && WriteAnswer(script, left) == Ok(n) && n > 0
    ensures var o := WriteAllOutcome(Rest(script), left - n);
      WriteAllOutcome(script, left) == (o.0, n + o.1)
  {
  }

  lemma OutcomeZero(script: seq<Result<nat, Error>>, left: nat)
    requires left > 0 && WriteAnswer(script, left) == Ok(0)
    ensures WriteAllOutcome(script, left) == (Err(WRITE_ZERO), 0)
  {
  }

  lemma OutcomeFailed(script: seq<Result<nat, Error>>, left: nat, e: Error)
    requires left > 0 && WriteAnswer(script, left) == Err(e)
    ensures WriteAllOutcome(script, left)
      == if e == INTERRUPTED then WriteAllOutcome(Rest(script), left) else (Err(e), 0)
  {
  }

  /**
   * One pass of the `write_all` loop with `at` bytes of `buf` written: a
   * write of the rest, then either the new position or the error that
   * ends the loop.
   */
  method WriteStep(w: Writer, buf: seq<u8>, at: nat) returns (next: nat, stop: Option<Error>)
    requires at < |buf|
    modifies w
    ensures at <= next <= |buf| && w.output == old(w.output) + buf[at..next]
    ensures old(w.script) != [] ==> |w.script| < |old(w.script)|
    ensures old(w.script) == [] ==> w.script == [] && next > at && stop.None?
    ensures stop.Some? ==> WriteAllOutcome(old(w.script), |buf| - at) == (Err(stop.value), 0) && next == at
    ensures stop.None? ==> var o := WriteAllOutcome(w.script, |buf| - next);
      WriteAllOutcome(old(w.script), |buf| - at) == (o.0, next - at + o.1)
  {
    ghost var script := w.script;
    var got := w.Write(buf[at..]);
    assert buf[at..][..0] == [];
    match got
    case Ok(n) =>
      if n == 0 {
        OutcomeZero(script, |buf| - at);
        return at, Some(WRITE_ZERO);
      }
      OutcomeTook(script, |buf| - at, n);
      assert buf[at..][..n] == buf[at..at + n];
      return at + n, None;
    case Err(e) =>
      OutcomeFailed(script, |buf| - at, e);
      if e != INTERRUPTED {
        return at, Some(e);
      }
      return at, None;
  }

  /**
   * `write_all`: writes until all of `buf` is taken, retrying
   * `INTERRUPTED`; a write that takes nothing is `WRITE_ZERO`, any other
   * error is passed on. The result and the bytes taken are those of
   * `WriteAllOutcome` on the writer's script; the writer has taken a
   * front part of `buf`, all of it exactly on success.
   */
  method WriteAll(w: Writer, buf: seq<u8>) returns (r: Result<(), Error>)
    modifies w
    ensures var o := WriteAllOutcome(old(w.script), |buf|);
      r == o.0 && w.output == old(w.output) + buf[..o.1]
    ensures TookPrefix(old(w.output), w.output, buf)
    ensures r.Ok? <==> w.output == old(w.output) + buf
    ensures r.Err? ==> r.error != INTERRUPTED && (r.error == WRITE_ZERO || Err(r.error) in old(w.script))
    ensures old(w.script) == [] ==> r.Ok?
  {
    var at := 0;
    while at < |buf|
      invariant 0 <= at <= |buf| && w.output == old(w.output) + buf[..at]
      invariant var o := WriteAllOutcome(w.script, |buf| - at);
        WriteAllOutcome(old(w.script), |buf|) == (o.0, at + o.1)
      decreases |w.script|, |buf| - at
    {
      var next, stop := WriteStep(w, buf, at);
      assert buf[..next] == buf[..at] + buf[at..next];
      if stop.Some? {
        return Err(stop.value);
      }
      at := next;
    }
    assert buf[..at] == buf;
    r := Ok(());
  }

  // ---- BufReader -------------------------------------------------------------

  const BUF_READER_SIZE: nat := 0x4000

  /** The first index of `x` in `s`: `position(|c| c == x)`. */
  function Position(s: seq<u8>, x: u8): (r: Option<nat>)
    ensures r.Some? ==> r.value < |s| && s[r.value] == x && x !in s[..r.value]
    ensures r.None? ==> x !in s
  {
    if |s| == 0 then None
    else if s[0] == x then Some(0)
    else match Position(s[1..], x)
      case None => None
      case Some(i) => assert s[..i + 1] == [s[0]] + s[1..][..i]; Some(i + 1)
  }

  class BufReader {
    /** The read-ahead buffer; its first `end` bytes are not consumed yet. */
    const buf: array<u8>
    var end: nat
    const inner: Reader

    ghost predicate Valid()
      reads this
    {
      buf.Length == BUF_READER_SIZE && end <= buf.Length
    }

    /** The bytes still to be consumed: the buffered ones, then the inner reader's. */
    ghost function Stream(): seq<u8>
      reads this, buf, inner
      requires Valid()
    {
      buf[..end] + inner.input
    }

    /** `BufReader::new`, with the zeroed buffer that the first use allocates. */
    constructor(inner: Reader)
      ensures Valid() && end == 0 && this.inner == inner && fresh(buf)
    {
      this.inner := inner;
      buf := new u8[BUF_READER_SIZE](_ => 0);
      end := 0;
    }

    /**
     * `fill_buf`: the buffered bytes; when there are none, one read of the
     * inner reader into the buffer first. The stream is unchanged: bytes
     * only move from the reader into the buffer.
     */
    method FillBuf() returns (r: Result<seq<u8>, Error>)
      requires Valid()
      modifies this, buf, inner
      ensures Valid() && Stream() == old(Stream())
      ensures r.Ok? ==> r.value == buf[..end] == Stream()[..end]
      ensures old(end) != 0 ==> r == Ok(old(buf[..end])) && end == old(end) && inner.script == old(inner.script)
      ensures old(end) == 0 ==> inner.script == Rest(old(inner.script))
      ensures old(end) == 0 ==> match ReadAnswer(old(inner.script), |old(inner.input)|, BUF_READER_SIZE)
                                 case Ok(n) => r.Ok? && end == n
                                 case Err(e) => r == Err(e) && end == 0
    {
      if end != 0 {
        return Ok(buf[..end]);
      }
      var got := inner.Read(buf, 0);
      if got.Err? {
        return Err(got.error);
      }
      end := end + got.value;
      VfsDevice.OverwrittenIsSplice(buf[..], old(buf[..]), 0, old(inner.input)[..got.value]);
      assert buf[..end] == old(inner.input)[..end];
      r := Ok(buf[..end]);
    }

    /**
     * `consume`: the first `used` buffered bytes are dropped, by rotating
     * the buffer left, and the stream loses its first `used` bytes.
     */
    method Consume(used: nat)
      requires Valid() && used <= end
      modifies this, buf
      ensures Valid() && end == old(end) - used
      ensures buf[..] == old(buf[used..]) + old(buf[..used])
      ensures Stream() == old(Stream())[used..]
    {
      var rotated := buf[used..] + buf[..used];
      forall i | 0 <= i < buf.Length {
        buf[i] := rotated[i];
      }
      end := end - used;
      assert buf[..] == rotated;
      assert buf[..end] == old(buf[..end])[used..];
    }
  }

  /**
   * `read_until`: appends the stream's bytes to `out` up to and including
   * the first `delim`, or up to an empty `fill_buf`, and returns how many
   * it took. An error from `fill_buf` is passed on, with what was taken
   * before it already appended. Either way `out` grows by exactly the
   * bytes the stream lost, and only the last of them can be `delim`.
   */
  method ReadUntil(rd: BufReader, delim: u8, out: seq<u8>) returns (r: Result<nat, Error>, out': seq<u8>)
    requires rd.Valid()
    modifies rd, rd.buf, rd.inner
    ensures rd.Valid()
    ensures Until(old(rd.Stream()), old(rd.inner.script) == [], out, out', delim, r, rd.end, rd.Stream())
  {
    ghost var orig := rd.Stream();
    ghost var quiet := rd.inner.script == [];
    out' := out;
    while true
      invariant rd.Valid() && Taken(orig, out, out', rd.Stream())
      invariant delim !in out'[|out|..]
      invariant quiet ==> rd.inner.script == []
      decreases |rd.Stream()|
    {
      ghost var now := rd.Stream();
      ghost var taken := out';
      var chunk, done := TakeChunk(rd, delim);
      if chunk.Err? {
        r := Err(chunk.error);
        UntilErr(orig, quiet, out, out', delim, r, rd.end, rd.Stream());
        return;
      }
      out' := out' + chunk.value;
      TakenStep(orig, out, taken, now, chunk.value, rd.Stream());
      DelimStep(taken[|out|..], chunk.value, delim, done);
      if done || |chunk.value| == 0 {
        r := Ok(|out'| - |out|);
        UntilOk(orig, quiet, out, out', delim, r, rd.end, rd.Stream(), done);
        return;
      }
    }
  }

  /**
   * What `read_until` promises: `out'` is `out` followed by what the
   * stream lost; only the last byte taken can be `delim`; on success the
   * count is the number of bytes taken, and when the last of them is not
   * `delim` the buffer was found empty, so that with a reader that never
   * stops short the whole stream was taken.
   */
  ghost predicate Until(orig: seq<u8>, quiet: bool, out: seq<u8>, out': seq<u8>, delim: u8,
                        r: Result<nat, Error>, end: nat, now: seq<u8>)
  {
    Taken(orig, out, out', now)
    && (|out'| > |out| ==> delim !in out'[|out|..|out'| - 1])
    && (r.Ok? ==> r.value == |out'| - |out|)
    && (r.Ok? && (|out'| == |out| || out'[|out'| - 1] != delim) ==> end == 0)
    && (r.Ok? && quiet && (|out'| == |out| || out'[|out'| - 1] != delim) ==> out' == out + orig)
  }

  /** `read_until` stopping at an error keeps what it had taken. */
  lemma UntilErr(orig: seq<u8>, quiet: bool, out: seq<u8>, out': seq<u8>, delim: u8,
                 r: Result<nat, Error>, end: nat, now: seq<u8>)
    requires Taken(orig, out, out', now) && delim !in out'[|out|..] && r.Err?
    ensures Until(orig, quiet, out, out', delim, r, end, now)
  {
    if |out'| > |out| {
      assert out'[|out|..|out'| - 1] == out'[|out|..][..|out'| - |out| - 1];
    }
  }

  /** `read_until` stopping at `delim` or at an empty buffer. */
  lemma UntilOk(orig: seq<u8>, quiet: bool, out: seq<u8>, out': seq<u8>, delim: u8,
                r: Result<nat, Error>, end: nat, now: seq<u8>, done: bool)
    requires Taken(orig, out, out', now) && r == Ok(|out'| - |out|)
    requires |out'| > |out| ==> delim !in out'[|out|..][..|out'| - |out| - 1]
    requires done ==> |out'| > |out| && out'[|out'| - 1] == delim
    requires !done ==> end == 0 && (quiet ==> now == [])
    ensures Until(orig, quiet, out, out', delim, r, end, now)
  {
    if |out'| > |out| {
      assert out'[|out|..|out'| - 1] == out'[|out|..][..|out'| - |out| - 1];
    }
    if !done && quiet {
      assert orig[..|out'| - |out|] == orig;
    }
  }

  /** `out'` is `out` followed by what `orig` lost to become `now`. */
  ghost predicate Taken(orig: seq<u8>, out: seq<u8>, out': seq<u8>, now: seq<u8>)
  {
    |out| <= |out'| <= |out| + |orig|
    && out' == out + orig[..|out'| - |out|]
    && now == orig[|out'| - |out|..]
  }

  /** Only the last byte of a chunk ending a line can be `delim`; a chunk without `delim` adds none. */
  lemma DelimStep(p: seq<u8>, c: seq<u8>, delim: u8, done: bool)
    requires delim !in p
    requires done ==> |c| > 0 && delim !in c[..|c| - 1]
    requires !done ==> delim !in c
    ensures !done ==> delim !in p + c
    ensures |p + c| > 0 ==> delim !in (p + c)[..|p + c| - 1]
  {
    if |c| > 0 {
      assert (p + c)[..|p + c| - 1] == p + c[..|c| - 1];
    } else {
      assert p + c == p;
    }
  }

  /** Taking a prefix `chunk` of what is left keeps `Taken`. */
  lemma TakenStep(orig: seq<u8>, out: seq<u8>, out': seq<u8>, now: seq<u8>, chunk: seq<u8>, now': seq<u8>)
    requires Taken(orig, out, out', now)
    requires |chunk| <= |now| && chunk == now[..|chunk|] && now' == now[|chunk|..]
    ensures Taken(orig, out, out' + chunk, now')
    ensures (out' + chunk)[|out|..] == out'[|out|..] + chunk
    ensures now' == [] ==> out' + chunk == out + orig
  {
    var n := |out'| - |out|;
    assert orig[..n + |chunk|] == orig[..n] + chunk;
    assert orig[n + |chunk|..] == now[|chunk|..];
  }

  /**
   * One round of `read_until`'s loop: `fill_buf`, then the buffered bytes
   * up to and including the first `delim` (all of them when there is
   * none) are taken and consumed. `done` says that `delim` was found.
   */
  method TakeChunk(rd: BufReader, delim: u8) returns (r: Result<seq<u8>, Error>, done: bool)
    requires rd.Valid()
    modifies rd, rd.buf, rd.inner
    ensures rd.Valid()
    ensures old(rd.inner.script) == [] ==> rd.inner.script == []
    ensures r.Err? ==> rd.Stream() == old(rd.Stream())
    ensures r.Ok? ==> |r.value| <= |old(rd.Stream())| && r.value == old(rd.Stream())[..|r.value|]
    ensures r.Ok? ==> rd.Stream() == old(rd.Stream())[|r.value|..]
    ensures r.Ok? && done ==> |r.value| > 0 && r.value[|r.value| - 1] == delim && delim !in r.value[..|r.value| - 1]
    ensures r.Ok? && !done ==> delim !in r.value
    ensures r.Ok? && |r.value| == 0 ==> rd.end == 0 && (old(rd.inner.script) == [] ==> rd.Stream() == [])
  {
    var avail := rd.FillBuf();
    if avail.Err? {
      return Err(avail.error), false;
    }
    var bytes := avail.value;
    ghost var stream := rd.Stream();
    var at := Position(bytes, delim);
    if at.Some? {
      r, done := Ok(bytes[..at.value + 1]), true;
      assert bytes[..at.value + 1][..at.value] == bytes[..at.value];
    } else {
      r, done := Ok(bytes), false;
    }
    rd.Consume(|r.value|);
    assert r.value == stream[..|r.value|];
  }

  // ---- BufWriter -------------------------------------------------------------

  class BufWriter {
    var buf: seq<u8>
    var broken: bool
    const inner: Writer

    constructor(inner: Writer)
      ensures buf == [] && !broken && this.inner == inner
    {
      buf := [];
      broken := false;
      this.inner := inner;
    }

    /** `write`: the bytes are added to the buffer, all of them. */
    method Write(data: seq<u8>) returns (r: Result<nat, Error>)
      requires !broken
      modifies this
      ensures buf == old(buf) + data && !broken
      ensures r == Ok(|data|)
    {
      buf := buf + data;
      r := Ok(|data|);
    }

    /**
     * `flush`, sending what the inner writer has not taken yet on each
     * try: on success the inner writer has taken the whole buffer, which
     * is cleared; on an error other than `INTERRUPTED` the writer is marked
     * broken, the buffer is kept and the inner writer has taken a front
     * part of it.
     */
    method Flush() returns (r: Result<(), Error>)
      modifies this, inner
      ensures r.Ok? ==> inner.output == old(inner.output) + old(buf) && buf == [] && broken == old(broken)
      ensures r.Err? ==> r.error != INTERRUPTED && broken && buf == old(buf)
      ensures r.Err? ==> TookPrefix(old(inner.output), inner.output, old(buf))
      ensures old(inner.script) == [] ==> r.Ok?
    {
      var consumed := 0;
      while consumed < |buf|
        invariant 0 <= consumed <= |buf| && buf == old(buf) && broken == old(broken)
        invariant inner.output == old(inner.output) + buf[..consumed]
        invariant old(inner.script) == [] ==> inner.script == []
        decreases |inner.script|, |buf| - consumed
      {
        var got := inner.Write(buf[consumed..]);
        match got
        case Ok(b) =>
          assert buf[..consumed + b] == buf[..consumed] + buf[consumed..][..b];
          consumed := consumed + b;
        case Err(e) =>
          if e != INTERRUPTED {
            broken := true;
            return Err(e);
          }
      }
      assert buf[..consumed] == buf;
      buf := [];
      r := Ok(());
    }

    /**
     * `flush` as written: every try sends the whole buffer again, and
     * adds what the inner writer took to the count. What the inner writer
     * ends up with is `FlushSends` of the buffer and its script.
     */
    method FlushAsWritten() returns (r: Result<(), Error>)
      modifies this, inner
      ensures var (sent, res) := FlushSends(old(buf), old(inner.script), 0);
              inner.output == old(inner.output) + sent && r == res
      ensures r.Ok? ==> buf == []
      ensures r.Err? ==> broken && buf == old(buf)
    {
      var consumed := 0;
      ghost var sent: seq<u8> := [];
      assert sent + FlushSends(buf, inner.script, consumed).0 == FlushSends(buf, inner.script, consumed).0;
      while consumed < |buf|
        invariant buf == old(buf) && inner.output == old(inner.output) + sent
        invariant FlushSends(old(buf), old(inner.script), 0).0 == sent + FlushSends(buf, inner.script, consumed).0
        invariant FlushSends(old(buf), old(inner.script), 0).1 == FlushSends(buf, inner.script, consumed).1
        decreases |inner.script|, |buf| - consumed
      {
        ghost var script := inner.script;
        var got := inner.Write(buf);
        match got
        case Ok(b) =>
          FlushSendsStep(buf, script, consumed);
          sent := sent + buf[..b];
          consumed := consumed + b;
        case Err(e) =>
          FlushSendsStep(buf, script, consumed);
          if e != INTERRUPTED {
            broken := true;
            return Err(e);
          }
      }
      assert sent + [] == sent;
      buf := [];
      r := Ok(());
    }
  }

  /**
   * What `flush` as written sends with the count at `consumed`: every try
   * sends the whole of `buf` from its start, and the script decides how
   * much of it the inner writer takes.
   */
  function FlushSends(buf: seq<u8>, script: seq<Result<nat, Error>>, consumed: nat): (r: (seq<u8>, Result<(), Error>))
    ensures consumed >= |buf| ==> r == ([], Ok(()))
    ensures r.1.Err? ==> r.1.error != INTERRUPTED
    decreases |script|, |buf| - consumed
  {
    if consumed >= |buf| then ([], Ok(()))
    else match WriteAnswer(script, |buf|)
      case Ok(b) =>
        var (rest, res) := FlushSends(buf, Rest(script), consumed + b);
        (buf[..b] + rest, res)
      case Err(e) =>
        if e != INTERRUPTED then ([], Err(e)) else FlushSends(buf, Rest(script), consumed)
  }

  /** One try of `flush` as written. */
  lemma FlushSendsStep(buf: seq<u8>, script: seq<Result<nat, Error>>, consumed: nat)
    requires consumed < |buf|
    ensures WriteAnswer(script, |buf|).Ok? ==>
              var b := WriteAnswer(script, |buf|).value;
              FlushSends(buf, script, consumed).0 == buf[..b] + FlushSends(buf, Rest(script), consumed + b).0
              && FlushSends(buf, script, consumed).1 == FlushSends(buf, Rest(script), consumed + b).1
    ensures WriteAnswer(script, |buf|) == Err(INTERRUPTED) ==> FlushSends(buf, script, consumed) == FlushSends(buf, Rest(script), consumed)
    ensures WriteAnswer(script, |buf|).Err? && WriteAnswer(script, |buf|).error != INTERRUPTED ==>
              FlushSends(buf, script, consumed) == ([], Err(WriteAnswer(script, |buf|).error))
  {
  }

  /**
   * A writer that takes one byte on its first call: `flush` as written
   * sends `[1]` and then `[1, 2]`, so the writer ends with `[1, 1, 2]`
   * for a buffer of `[1, 2]`.
   */
  lemma FlushResendsFront()
    ensures FlushSends([1, 2], [Ok(1)], 0) == ([1, 1, 2], Ok(()))
  {
    var buf: seq<u8> := [1, 2];
    assert buf[..1] == [1];
    assert buf[..2] == buf;
    assert FlushSends(buf, [], 3) == ([], Ok(()));
    assert buf + [] == buf;
    assert FlushSends(buf, [], 1) == (buf, Ok(()));
    assert WriteAnswer([Ok(1)], 2) == Ok(1);
    assert Rest([Ok(1)]) == [];
    assert buf[..1] + buf == [1, 1, 2];
  }
}
