// Messages from a shell task: a byte stream cut anywhere, with a NUL after every message.
module Fifo {
  import opened Options

  type Byte = b: int | 0 <= b < 256

  /** A call of the logger; Raise is an exception from taking a message apart. */
  datatype Call =
    | Plain(value: string)
    | Note(value: string)
    | VerbNote(value: string)
    | Warn(value: string)
    | Error(value: string, forcelog: bool)
    | Debug(level: int, value: string)
    | Raise

  /** How bytes.decode("utf-8") and int() behave; None is an exception. */
  datatype Conversions = Conversions(decode: seq<Byte> -> Option<string>, toInt: string -> Option<int>)

  /** `s.split(' ', 1)`: the parts around the first separator; no second part without one. */
  function SplitOnce<T(==)>(s: seq<T>, sep: T): (seq<T>, Option<seq<T>>) {
    if s == [] then ([], None)
    else if s[0] == sep then ([], Some(s[1..]))
    else
      var (first, rest) := SplitOnce(s[1..], sep);
      ([s[0]] + first, rest)
  }

  lemma {:induction false} SplitsAtFirst<T>(s: seq<T>, sep: T)
    ensures var (first, rest) := SplitOnce(s, sep);
            && sep !in first
            && (if rest.Some? then s == first + [sep] + rest.value else s == first)
  {
    if s != [] && s[0] != sep {
      SplitsAtFirst(s[1..], sep);
      assert s == [s[0]] + s[1..];
    }
  }

  /** What one message makes the logger do. */
  function Interpret(conv: Conversions, message: seq<Byte>): Call {
    var (first, rest) := SplitOnce(message, 32);
    var cmd := conv.decode(first);
    var value := if rest.None? then Some("") else conv.decode(rest.value);
    if cmd.None? || value.None? then Raise
    else if cmd.value == "bbplain" then Plain(value.value)
    else if cmd.value == "bbnote" then Note(value.value)
    else if cmd.value == "bbverbnote" then VerbNote(value.value)
    else if cmd.value == "bbwarn" then Warn(value.value)
    else if cmd.value == "bberror" || cmd.value == "bbfatal" then Error(value.value, false)
    else if cmd.value == "bbfatal_log" then Error(value.value, true)
    else if cmd.value == "bbdebug" then
      var (level, text) := SplitOnce(value.value, ' ');
      if conv.toInt(level).None? || text.None? then Raise else Debug(conv.toInt(level).value, text.value)
    else Warn("Unrecognised command '" + cmd.value + "' on FIFO")
  }

  lemma {:induction false} SplitAt<T>(first: seq<T>, sep: T, rest: seq<T>)
    requires sep !in first
    ensures SplitOnce(first + [sep] + rest, sep) == (first, Some(rest))
    ensures SplitOnce(first, sep) == (first, None)
  {
    if first == [] {
      assert ([] + [sep] + rest)[1..] == rest;
    } else {
      assert (first + [sep] + rest)[1..] == first[1..] + [sep] + rest;
      assert first == [first[0]] + first[1..];
      SplitAt(first[1..], sep, rest);
    }
  }

  /** A command, a blank and a value, as shell tasks write them: each command is the call it stands for. */
  lemma CommandIsCalled(conv: Conversions, command: seq<Byte>, c: string, payload: seq<Byte>, v: string)
    requires 32 !in command && conv.decode(command) == Some(c) && conv.decode(payload) == Some(v)
    ensures var call := Interpret(conv, command + [32] + payload);
            && (c == "bbplain" ==> call == Plain(v))
            && (c == "bbnote" ==> call == Note(v))
            && (c == "bbverbnote" ==> call == VerbNote(v))
            && (c == "bbwarn" ==> call == Warn(v))
            && (c == "bberror" ==> call == Error(v, false))
            && (c == "bbfatal" ==> call == Error(v, false))
            && (c == "bbfatal_log" ==> call == Error(v, true))
            && (c == "bbdebug" && ' ' !in v ==> call == Raise)
            && (c !in ["bbplain", "bbnote", "bbverbnote", "bbwarn", "bberror", "bbfatal", "bbfatal_log", "bbdebug"] ==>
                  call == Warn("Unrecognised command '" + c + "' on FIFO"))
  {
    SplitAt(command, 32, payload);
    if ' ' !in v {
      SplitAt(v, ' ', []);
    }
  }

  /** A message for bbdebug has a number before the text. */
  lemma DebugIsCalled(conv: Conversions, command: seq<Byte>, payload: seq<Byte>, level: string, text: string)
    requires 32 !in command && conv.decode(command) == Some("bbdebug")
    requires ' ' !in level && conv.decode(payload) == Some(level + [' '] + text)
    ensures Interpret(conv, command + [32] + payload) ==
            if conv.toInt(level).Some? then Debug(conv.toInt(level).value, text) else Raise
  {
    SplitAt(command, 32, payload);
    SplitAt(level, ' ', text);
  }

  /** A command without a value has the empty one. */
  lemma NoValue(conv: Conversions, command: seq<Byte>)
    requires 32 !in command && conv.decode([]) == Some("")
    ensures Interpret(conv, command) == Interpret(conv, command + [32] + [])
  {
    SplitAt(command, 32, []);
  }

  /** A message whose command or value is not UTF-8 raises. */
  lemma NotDecoded(conv: Conversions, command: seq<Byte>, payload: seq<Byte>)
    requires 32 !in command && (conv.decode(command).None? || conv.decode(payload).None?)
    ensures Interpret(conv, command + [32] + payload) == Raise
  {
    SplitAt(command, 32, payload);
  }

  // ---- splitting a stream on NUL ----

  /** The whole stream, byte by byte: the messages that are complete, and what follows the last NUL. */
  function Framing(s: seq<Byte>): (seq<seq<Byte>>, seq<Byte>) {
    if s == [] then ([], [])
    else
      var (ms, tail) := Framing(s[..|s| - 1]);
      if s[|s| - 1] == 0 then (ms + [tail], []) else (ms, tail + [s[|s| - 1]])
  }

  /** The stream of some messages. */
  function Encode(ms: seq<seq<Byte>>): seq<Byte> {
    if ms == [] then [] else Encode(ms[..|ms| - 1]) + ms[|ms| - 1] + [0]
  }

  ghost predicate NulFree(s: seq<Byte>) {
    forall i :: 0 <= i < |s| ==> s[i] != 0
  }

  /** s consists of these messages and this tail, and nothing else can be said of it. */
  ghost predicate Framed(s: seq<Byte>, ms: seq<seq<Byte>>, tail: seq<Byte>) {
    s == Encode(ms) + tail && NulFree(tail) && forall i :: 0 <= i < |ms| ==> NulFree(ms[i])
  }

  lemma {:induction false} FramingIsFramed(s: seq<Byte>)
    ensures Framed(s, Framing(s).0, Framing(s).1)
  {
    if s != [] {
      var (ms, tail) := Framing(s[..|s| - 1]);
      FramingIsFramed(s[..|s| - 1]);
      assert s == s[..|s| - 1] + [s[|s| - 1]];
      assert (ms + [tail])[..|ms|] == ms;
    }
  }

  lemma {:induction false} FramedIsFraming(s: seq<Byte>, ms: seq<seq<Byte>>, tail: seq<Byte>)
    requires Framed(s, ms, tail)
    ensures Framing(s) == (ms, tail)
    decreases |s|
  {
    if tail != [] {
      var front := tail[..|tail| - 1];
      assert s[..|s| - 1] == Encode(ms) + front && s[|s| - 1] == tail[|tail| - 1];
      FramedIsFraming(s[..|s| - 1], ms, front);
      assert front + [tail[|tail| - 1]] == tail;
    } else if ms != [] {
      var front, last := ms[..|ms| - 1], ms[|ms| - 1];
      assert s == Encode(front) + last + [0];
      assert s[..|s| - 1] == Encode(front) + last;
      FramedIsFraming(s[..|s| - 1], front, last);
      assert front + [last] == ms;
    }
  }

  lemma FramingOneMore(s: seq<Byte>, b: Byte)
    ensures Framing([]) == ([], [])
    ensures var (ms, tail) := Framing(s);
            Framing(s + [b]) == if b == 0 then (ms + [tail], []) else (ms, tail + [b])
  {
    assert (s + [b])[..|s|] == s;
  }

  lemma FramingOfTail(a: seq<Byte>)
    ensures var (ms, tail) := Framing(a);
            Framing(tail) == ([], tail)
  {
    var (ms, tail) := Framing(a);
    FramingIsFramed(a);
    FramedIsFraming(tail, [], tail);
  }

  /** Going on from the unfinished part is as good as starting again. */
  lemma {:induction false} FramingGoesOn(a: seq<Byte>, b: seq<Byte>)
    ensures var (ms, tail) := Framing(a);
            var (more, rest) := Framing(tail + b);
            Framing(a + b) == (ms + more, rest)
  {
    hide Framing;
    var (ms, tail) := Framing(a);
    FramingOfTail(a);
    if b == [] {
      assert a + b == a && tail + b == tail && ms + [] == ms;
    } else {
      var front, last := b[..|b| - 1], b[|b| - 1];
      FramingGoesOn(a, front);
      assert a + b == (a + front) + [last] && tail + b == (tail + front) + [last];
      var (more, rest) := Framing(tail + front);
      FramingOneMore(a + front, last);
      FramingOneMore(tail + front, last);
      assert ms + (more + [rest]) == (ms + more) + [rest];
    }
  }

  lemma EncodeOne(m: seq<Byte>)
    ensures Encode([m]) == m + [0]
  {
    assert [m][..0] == [] && Encode([]) == [] && [] + m == m;
  }

  lemma FirstMessage(s: seq<Byte>, k: nat)
    requires k < |s| && NulFree(s[..k]) && s[k] == 0
    ensures var (ms, tail) := Framing(s[k + 1..]);
            Framing(s) == ([s[..k]] + ms, tail)
  {
    var a, b := s[..k + 1], s[k + 1..];
    hide Framing, Encode;
    EncodeOne(s[..k]);
    assert a == s[..k] + [0] + [];
    FramedIsFraming(a, [s[..k]], []);
    FramingGoesOn(a, b);
    assert a + b == s && [] + b == b;
  }

  // ---- what is delivered ----

  /** How many messages come before the first that raises. */
  function GoodCount(conv: Conversions, ms: seq<seq<Byte>>): (n: nat)
    ensures n <= |ms|
  {
    if ms == [] || Interpret(conv, ms[0]).Raise? then 0 else 1 + GoodCount(conv, ms[1..])
  }

  function Calls(conv: Conversions, ms: seq<seq<Byte>>): seq<Call> {
    seq(|ms|, i requires 0 <= i < |ms| => Interpret(conv, ms[i]))
  }

  /** What a reader holds: the bytes kept, the calls made, and whether the last read raised. */
  datatype Reader = Reader(buffer: seq<Byte>, calls: seq<Call>, ok: bool)

  /**
   * Reading data: the messages before the first that raises are delivered, and the rest is kept; without
   * such a message, that is the unterminated tail.
   */
  function Read(conv: Conversions, r: Reader, data: seq<Byte>): Reader {
    var (ms, tail) := Framing(r.buffer + data);
    var n := GoodCount(conv, ms);
    Reader(Encode(ms[n..]) + tail, r.calls + Calls(conv, ms[..n]), n == |ms|)
  }

  class FifoReader {
    const conv: Conversions
    var fifobuffer: seq<Byte>
    var calls: seq<Call>

    constructor (conv: Conversions)
      ensures this.conv == conv && fifobuffer == [] && calls == []
    {
      this.conv, fifobuffer, calls := conv, [], [];
    }

    /** `readfifo(data)`; false is an exception, which leaves the message that raised it in the buffer. */
    method ReadFifo(data: seq<Byte>) returns (ok: bool)
      modifies this
      ensures Reader(fifobuffer, calls, ok) == Read(conv, old(Reader(fifobuffer, calls, true)), data)
    {
      hide Framing, Encode, Framed, NulFree, GoodCount, Interpret, Calls, SplitOnce;
      fifobuffer := fifobuffer + data;
      ghost var all := fifobuffer;
      ghost var (ms, tail) := Framing(all);
      ghost var n := 0;
      StartOfMessages(conv, ms);
      while fifobuffer != []
        invariant n <= |ms| && Framing(fifobuffer) == (ms[n..], tail)
        invariant calls == old(calls) + Calls(conv, ms[..n])
        invariant GoodCount(conv, ms) == n + GoodCount(conv, ms[n..])
        decreases |fifobuffer|
      {
        var k := Partition(fifobuffer);
        if k == |fifobuffer| {
          NoMessage(fifobuffer);
          break;
        }
        var message, nextmsg := fifobuffer[..k], fifobuffer[k + 1..];
        FirstMessage(fifobuffer, k);
        NextCall(conv, ms, n);
        var call := Interpret(conv, message);
        if call.Raise? {
          FramingEncodes(fifobuffer);
          return false;
        }
        calls := calls + [call];
        n := n + 1;
        fifobuffer := nextmsg;
      }
      FramingOneMore([], 0);
      FramingEncodes(fifobuffer);
      NoCount(conv);
      assert ms[n..] == [] && ms[..n] == ms;
      return true;
    }

    /** Where the first NUL is; the length without one. */
    method Partition(s: seq<Byte>) returns (k: nat)
      ensures k <= |s| && NulFree(s[..k]) && (k < |s| ==> s[k] == 0)
    {
      k := 0;
      while k < |s| && s[k] != 0
        invariant k <= |s| && NulFree(s[..k])
      {
        k := k + 1;
      }
    }
  }

  lemma StartOfMessages(conv: Conversions, ms: seq<seq<Byte>>)
    ensures ms[0..] == ms && ms[..0] == [] && Calls(conv, ms[..0]) == []
  {
  }

  lemma NoCount(conv: Conversions)
    ensures GoodCount(conv, []) == 0
  {
  }

  lemma NoMessage(s: seq<Byte>)
    requires NulFree(s)
    ensures Framing(s) == ([], s)
  {
    FramedIsFraming(s, [], s);
  }

  lemma FramingEncodes(s: seq<Byte>)
    ensures s == Encode(Framing(s).0) + Framing(s).1
  {
    FramingIsFramed(s);
  }

  lemma NextCall(conv: Conversions, ms: seq<seq<Byte>>, n: nat)
    requires n < |ms|
    ensures ms[n] == ms[n..][0] && ms[n + 1..] == ms[n..][1..]
    ensures Calls(conv, ms[..n + 1]) == Calls(conv, ms[..n]) + [Interpret(conv, ms[n])]
    ensures GoodCount(conv, ms[n..]) == if Interpret(conv, ms[n]).Raise? then 0 else 1 + GoodCount(conv, ms[n + 1..])
  {
  }

  // ---- any way of cutting the stream ----

  function ReadAll(conv: Conversions, r: Reader, chunks: seq<seq<Byte>>): Reader
    decreases |chunks|
  {
    if chunks == [] then r else ReadAll(conv, Read(conv, r, chunks[0]), chunks[1..])
  }

  function Concat(chunks: seq<seq<Byte>>): seq<Byte>
    decreases |chunks|
  {
    if chunks == [] then [] else chunks[0] + Concat(chunks[1..])
  }

  lemma {:induction false} GoodCountOf(conv: Conversions, ms: seq<seq<Byte>>, more: seq<seq<Byte>>)
    ensures var n := GoodCount(conv, ms);
            && GoodCount(conv, ms + more) == (if n < |ms| then n else n + GoodCount(conv, more))
            && GoodCount(conv, ms[n..]) == 0
            && (forall i :: 0 <= i < n ==> !Interpret(conv, ms[i]).Raise?)
            && (n < |ms| ==> Interpret(conv, ms[n]).Raise?)
    decreases |ms|
  {
    if ms == [] {
      assert ms + more == more;
    } else {
      assert (ms + more)[1..] == ms[1..] + more && (ms + more)[0] == ms[0];
      GoodCountOf(conv, ms[1..], more);
      if !Interpret(conv, ms[0]).Raise? {
        assert ms[1..][GoodCount(conv, ms[1..])..] == ms[GoodCount(conv, ms)..];
      }
    }
  }

  lemma KeptIsFramed(s: seq<Byte>, n: nat)
    requires n <= |Framing(s).0|
    ensures var (ms, tail) := Framing(s);
            Framing(Encode(ms[n..]) + tail) == (ms[n..], tail)
  {
    var (ms, tail) := Framing(s);
    FramingIsFramed(s);
    FramedIsFraming(Encode(ms[n..]) + tail, ms[n..], tail);
  }

  /** Two reads are one read of both pieces. */
  lemma {:induction false} ReadTwice(conv: Conversions, r: Reader, a: seq<Byte>, b: seq<Byte>)
    ensures Read(conv, Read(conv, r, a), b) == Read(conv, r, a + b)
  {
    hide Framing, Encode, Framed, NulFree, GoodCount, Interpret;
    var (ms, tail) := Framing(r.buffer + a);
    var n := GoodCount(conv, ms);
    var kept := Encode(ms[n..]) + tail;
    KeptIsFramed(r.buffer + a, n);
    FramingGoesOn(kept, b);
    FramingGoesOn(r.buffer + a, b);
    assert r.buffer + a + b == r.buffer + (a + b);
    var (more, rest) := Framing(tail + b);
    GoodCountOf(conv, ms, more);
    GoodCountOf(conv, ms[n..], more);
    DeliveredTwice(conv, ms, more);
    hide Calls;
    assert r.calls + Calls(conv, ms[..n]) + Calls(conv, (ms[n..] + more)[..GoodCount(conv, ms[n..] + more)])
        == r.calls + (Calls(conv, ms[..n]) + Calls(conv, (ms[n..] + more)[..GoodCount(conv, ms[n..] + more)]));
  }

  /** The messages kept, with more behind, are delivered as they would have been at once. */
  lemma {:induction false} DeliveredTwice(conv: Conversions, ms: seq<seq<Byte>>, more: seq<seq<Byte>>)
    ensures var n, all := GoodCount(conv, ms), ms + more;
            var m, later := GoodCount(conv, ms[n..] + more), ms[n..] + more;
            && GoodCount(conv, all) == n + m
            && all[n + m..] == later[m..]
            && Calls(conv, all[..n + m]) == Calls(conv, ms[..n]) + Calls(conv, later[..m])
            && (n + m == |all| <==> m == |later|)
  {
    hide GoodCount, Interpret, Calls;
    var n, all := GoodCount(conv, ms), ms + more;
    GoodCountOf(conv, ms, more);
    GoodCountOf(conv, ms[n..], more);
    var m, later := GoodCount(conv, ms[n..] + more), ms[n..] + more;
    assert all == ms[..n] + later;
    assert all[..n + m] == ms[..n] + later[..m];
    CallsAppend(conv, ms[..n], later[..m]);
  }

  lemma {:induction false} CallsAppend(conv: Conversions, a: seq<seq<Byte>>, b: seq<seq<Byte>>)
    ensures Calls(conv, a + b) == Calls(conv, a) + Calls(conv, b)
  {
  }

  /** For every way of cutting the stream into pieces: the same calls, and the same bytes kept. */
  lemma {:induction false} CutsDoNotMatter(conv: Conversions, r: Reader, chunks: seq<seq<Byte>>)
    requires chunks != []
    ensures ReadAll(conv, r, chunks) == Read(conv, r, Concat(chunks))
    decreases |chunks|
  {
    if |chunks| == 1 {
      assert chunks[1..] == [] && chunks[0] + [] == chunks[0];
    } else {
      CutsDoNotMatter(conv, Read(conv, r, chunks[0]), chunks[1..]);
      ReadTwice(conv, r, chunks[0], Concat(chunks[1..]));
    }
  }

  /**
   * The messages of a stream that was encoded, with some unfinished bytes behind, arrive one by one if none
   * raises, and the unfinished bytes are kept.
   */
  lemma SentIsDelivered(conv: Conversions, ms: seq<seq<Byte>>, tail: seq<Byte>, chunks: seq<seq<Byte>>)
    requires NulFree(tail) && forall i :: 0 <= i < |ms| ==> NulFree(ms[i]) && !Interpret(conv, ms[i]).Raise?
    requires chunks != [] && Concat(chunks) == Encode(ms) + tail
    ensures ReadAll(conv, Reader([], [], true), chunks) == Reader(tail, Calls(conv, ms), true)
  {
    CutsDoNotMatter(conv, Reader([], [], true), chunks);
    assert [] + Concat(chunks) == Concat(chunks);
    FramedIsFraming(Concat(chunks), ms, tail);
    GoodCountOf(conv, ms, []);
    var n := GoodCount(conv, ms);
    assert n == |ms|;
    assert ms[n..] == [] && ms[..n] == ms && [] + tail == tail && [] + Calls(conv, ms) == Calls(conv, ms);
  }

  /** After a message that raises, nothing is delivered any more, whatever is sent. */
  lemma NothingAfterRaise(conv: Conversions, r: Reader, data: seq<Byte>, more: seq<Byte>)
    requires !Read(conv, r, data).ok
    ensures Read(conv, Read(conv, r, data), more) ==
            Reader(Read(conv, r, data).buffer + more, Read(conv, r, data).calls, false)
  {
    var (ms, tail) := Framing(r.buffer + data);
    var n := GoodCount(conv, ms);
    var kept := Encode(ms[n..]) + tail;
    FramingIsFramed(r.buffer + data);
    FramedIsFraming(kept, ms[n..], tail);
    FramingGoesOn(kept, more);
    var (more', rest) := Framing(tail + more);
    GoodCountOf(conv, ms, []);
    GoodCountOf(conv, ms[n..], more');
    FramingIsFramed(kept + more);
    assert (ms[n..] + more')[0..] == ms[n..] + more' && (ms[n..] + more')[..0] == [];
  }
}
