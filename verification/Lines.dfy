/** The stratum receive loop: JSON messages separated by newlines, for every way the stream is cut
    into reads. */
module Lines {
  import opened Wrappers

  /** The JSON parser: None when it throws. */
  type Parser<M> = string -> Option<M>

  // ----- What a stream means -----

  /** The complete lines of s, and the unfinished one. */
  datatype Split = Split(lines: seq<string>, rest: string)

  function IndexOf(s: string): (i: nat)
    ensures i <= |s| && '\n' !in s[..i] && (i < |s| ==> s[i] == '\n')
  {
    if s == "" || s[0] == '\n' then 0
    else
      var i := 1 + IndexOf(s[1..]);
      assert s[..i] == [s[0]] + s[1..][..i - 1];
      i
  }

  function Cut(s: string): Split
    decreases |s|
  {
    var i := IndexOf(s);
    if i == |s| then Split([], s)
    else
      var r := Cut(s[i + 1..]);
      Split([s[..i]] + r.lines, r.rest)
  }

  /** The lines with their newlines put back. */
  function Joined(lines: seq<string>): string {
    if lines == [] then "" else lines[0] + "\n" + Joined(lines[1..])
  }

  predicate NoNewline(lines: seq<string>) {
    forall i :: 0 <= i < |lines| ==> '\n' !in lines[i]
  }

  lemma FirstNewline(a: string, b: string)
    requires '\n' !in a
    ensures IndexOf(a + "\n" + b) == |a|
  {
    hide IndexOf;
    var s := a + "\n" + b;
    var i := IndexOf(s);
    assert forall k :: 0 <= k < |a| ==> s[k] == a[k] && a[k] in a;
    assert s[|a|] == '\n';
    assert forall k :: 0 <= k < i ==> s[..i][k] == s[k] && s[k] != '\n';
  }

  lemma CutOnce(s: string, line: string, tail: string)
    requires s == line + "\n" + tail && IndexOf(s) == |line|
    ensures Cut(s) == Split([line] + Cut(tail).lines, Cut(tail).rest)
  {
    hide IndexOf;
    assert s[..|line|] == line && s[|line| + 1..] == tail;
  }

  /** Lines and rest are the only way to write the stream without newlines inside them. */
  lemma {:induction false} CutOfJoined(lines: seq<string>, rest: string)
    requires NoNewline(lines) && '\n' !in rest
    ensures Cut(Joined(lines) + rest) == Split(lines, rest)
  {
    hide IndexOf;
    if lines == [] {
      assert Joined(lines) + rest == rest;
      assert forall k :: 0 <= k < |rest| ==> rest[k] != '\n';
    } else {
      var tail := Joined(lines[1..]) + rest;
      var s := lines[0] + "\n" + tail;
      assert Joined(lines) + rest == s;
      FirstNewline(lines[0], tail);
      CutOnce(s, lines[0], tail);
      CutOfJoined(lines[1..], rest);
    }
  }

  lemma JoinedFront(line: string, lines: seq<string>, rest: string)
    ensures Joined([line] + lines) + rest == line + "\n" + (Joined(lines) + rest)
  {
    assert ([line] + lines)[1..] == lines;
  }

  lemma {:induction false} JoinedCut(s: string)
    ensures NoNewline(Cut(s).lines) && '\n' !in Cut(s).rest && Joined(Cut(s).lines) + Cut(s).rest == s
    decreases |s|
  {
    hide IndexOf;
    var i := IndexOf(s);
    if i == |s| {
      assert s[..i] == s;
    } else {
      JoinedCut(s[i + 1..]);
      assert s == s[..i] + "\n" + s[i + 1..];
      CutOnce(s, s[..i], s[i + 1..]);
      JoinedFront(s[..i], Cut(s[i + 1..]).lines, Cut(s[i + 1..]).rest);
    }
  }

  /** One more chunk. */
  function Then(x: Split, chunk: string): Split {
    var y := Cut(x.rest + chunk);
    Split(x.lines + y.lines, y.rest)
  }

  lemma {:induction false} JoinedAppend(a: seq<string>, b: seq<string>)
    ensures Joined(a + b) == Joined(a) + Joined(b)
  {
    if a == [] {
      assert a + b == b;
    } else {
      assert (a + b)[1..] == a[1..] + b;
      JoinedAppend(a[1..], b);
    }
  }

  /** Every cut of every stream gives the same lines. */
  lemma CutInTwo(a: string, b: string)
    ensures Then(Cut(a), b) == Cut(a + b)
  {
    hide Cut, Joined;
    JoinedCut(a);
    var x := Cut(a);
    JoinedCut(x.rest + b);
    var y := Cut(x.rest + b);
    JoinedAppend(x.lines, y.lines);
    assert Joined(x.lines + y.lines) + y.rest == Joined(x.lines) + (x.rest + b) == a + b;
    CutOfJoined(x.lines + y.lines, y.rest);
  }

  function Concat(chunks: seq<string>): string {
    if chunks == [] then "" else Concat(chunks[..|chunks| - 1]) + chunks[|chunks| - 1]
  }

  function Fed(chunks: seq<string>): Split {
    if chunks == [] then Split([], "") else Then(Fed(chunks[..|chunks| - 1]), chunks[|chunks| - 1])
  }

  lemma {:induction false} AnyChunks(chunks: seq<string>)
    ensures Fed(chunks) == Cut(Concat(chunks))
  {
    if chunks != [] {
      AnyChunks(chunks[..|chunks| - 1]);
      CutInTwo(Concat(chunks[..|chunks| - 1]), chunks[|chunks| - 1]);
    }
  }

  /** The messages delivered for some lines: empty lines and lines that do not parse give none. */
  function Messages<M>(parse: Parser<M>, lines: seq<string>): seq<M> {
    if lines == [] then []
    else
      var m := Messages(parse, lines[..|lines| - 1]);
      var line := lines[|lines| - 1];
      if line == "" || parse(line).None? then m else m + [parse(line).value]
  }

  lemma {:induction false} MessagesAppend<M>(parse: Parser<M>, a: seq<string>, b: seq<string>)
    ensures Messages(parse, a + b) == Messages(parse, a) + Messages(parse, b)
    decreases |b|
  {
    if b == [] {
      assert a + b == a;
    } else {
      assert (a + b)[..|a + b| - 1] == a + b[..|b| - 1];
      MessagesAppend(parse, a, b[..|b| - 1]);
    }
  }

  // ----- The loop -----

  class NetworkBuffer<M> {
    var buffer: string
    var queue: seq<M>

    constructor ()
      ensures buffer == "" && queue == []
    {
      buffer, queue := "", [];
    }

    /** One read: append, then deliver and erase line by line while a newline is found. */
    method Receive(parse: Parser<M>, chunk: string)
      modifies this
      ensures buffer == Cut(old(buffer) + chunk).rest
      ensures queue == old(queue) + Messages(parse, Cut(old(buffer) + chunk).lines)
    {
      hide Messages, IndexOf, Cut;
      buffer := buffer + chunk;
      ghost var whole := Cut(buffer);
      ghost var done: seq<string> := [];
      NoMessages(parse);
      var pos := IndexOf(buffer);
      while pos < |buffer|
        invariant pos == IndexOf(buffer)
        invariant done + Cut(buffer).lines == whole.lines && Cut(buffer).rest == whole.rest
        invariant queue == old(queue) + Messages(parse, done)
        decreases |buffer|
      {
        var line := buffer[..pos];
        LineTaken(buffer, pos, done);
        if line != "" {
          var m := parse(line);
          if m.Some? { queue := queue + [m.value]; }
        }
        OneMore(parse, done, line);
        done := done + [line];
        buffer := buffer[pos + 1..];
        pos := IndexOf(buffer);
      }
      NoLine(buffer);
      assert done == whole.lines;
    }
  }

  /** The lines done and the lines still in the buffer, before and after one is taken. */
  lemma LineTaken(buffer: string, pos: nat, done: seq<string>)
    requires pos == IndexOf(buffer) < |buffer|
    ensures done + Cut(buffer).lines == done + [buffer[..pos]] + Cut(buffer[pos + 1..]).lines
    ensures Cut(buffer).rest == Cut(buffer[pos + 1..]).rest
  {
    hide IndexOf, Cut;
    var line, tail := buffer[..pos], buffer[pos + 1..];
    assert buffer == line + "\n" + tail;
    CutOnce(buffer, line, tail);
    assert done + ([line] + Cut(tail).lines) == done + [line] + Cut(tail).lines;
  }

  lemma NoLine(s: string)
    requires IndexOf(s) == |s|
    ensures Cut(s) == Split([], s)
  {
  }

  lemma NoMessages<M>(parse: Parser<M>)
    ensures Messages(parse, []) == []
  {
  }

  lemma OneMore<M>(parse: Parser<M>, done: seq<string>, line: string)
    ensures Messages(parse, done + [line])
      == if line == "" || parse(line).None? then Messages(parse, done) else Messages(parse, done) + [parse(line).value]
  {
    assert (done + [line])[..|done|] == done;
  }

  /** The whole connection: the messages are those of the newline-split stream, whatever the reads. */
  method ReceiveAll<M>(parse: Parser<M>, chunks: seq<string>) returns (queue: seq<M>, buffer: string)
    ensures queue == Messages(parse, Cut(Concat(chunks)).lines) && buffer == Cut(Concat(chunks)).rest
  {
    hide Cut, Messages, Concat;
    var b := new NetworkBuffer<M>();
    NoMessages(parse);
    ghost var x := Split([], "");
    for i := 0 to |chunks|
      invariant fresh(b) && x == Fed(chunks[..i]) && b.buffer == x.rest && b.queue == Messages(parse, x.lines)
    {
      assert chunks[..i + 1][..i] == chunks[..i];
      MessagesAppend(parse, x.lines, Cut(x.rest + chunks[i]).lines);
      b.Receive(parse, chunks[i]);
      x := Then(x, chunks[i]);
    }
    assert chunks[..|chunks|] == chunks;
    AnyChunks(chunks);
    queue, buffer := b.queue, b.buffer;
  }
}
