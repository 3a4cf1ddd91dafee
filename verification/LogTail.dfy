/** Reading the end of a log: printLastLines of cmd/ephemerd/service_darwin.go and
    tailLogToWriter of pkg/dind/attach.go. */
module LogTail {

  const CHUNK: nat := 8192
  const BUFFER: nat := 32768

  function Newlines(s: string): nat {
    if s == [] then 0 else Newlines(s[1..]) + (if s[0] == '\n' then 1 else 0)
  }

  lemma {:induction false} NewlinesAppend(a: string, b: string)
    ensures Newlines(a + b) == Newlines(a) + Newlines(b)
  {
    if a == [] {
      assert a + b == b;
    } else {
      NewlinesAppend(a[1..], b);
      assert (a + b)[1..] == a[1..] + b;
    }
  }

  /** `tail` is the longest suffix of `content` with at most `n` newlines. */
  ghost predicate LongestTail(content: string, n: nat, tail: string) {
    && |tail| <= |content| && tail == content[|content| - |tail|..] && Newlines(tail) <= n
    && (|tail| < |content| ==> Newlines(content[|content| - |tail| - 1..]) > n)
  }

  lemma SuffixMonotone(content: string, i: nat, j: nat)
    requires i <= j <= |content|
    ensures Newlines(content[i..]) >= Newlines(content[j..])
  {
    assert content[i..] == content[i..j] + content[j..];
    NewlinesAppend(content[i..j], content[j..]);
  }

  /** No longer suffix will do: the tail is the longest, and the only one. */
  lemma LongestTailUnique(content: string, n: nat, tail: string, from: nat)
    requires LongestTail(content, n, tail) && from <= |content| && Newlines(content[from..]) <= n
    ensures |content[from..]| <= |tail|
  {
    if from < |content| - |tail| {
      SuffixMonotone(content, from, |content| - |tail| - 1);
      assert false;
    }
  }

  lemma ChunkBefore(content: string, from: nat, to: nat)
    requires from <= to <= |content|
    ensures content[from..] == content[from..to] + content[to..]
    ensures NewlinesFrom(content, from) == Newlines(content[from..to]) + NewlinesFrom(content, to)
  {
    assert content[from..] == content[from..to] + content[to..];
    NewlinesAppend(content[from..to], content[to..]);
  }

  /** The tail of what was read is the tail of the whole, if that was all or had enough. */
  lemma TailOfRead(content: string, offset: nat, n: nat, out: string)
    requires offset <= |content| && LongestTail(content[offset..], n, out)
    requires offset > 0 ==> NewlinesFrom(content, offset) > n
    ensures LongestTail(content, n, out)
  {
    hide Newlines;
    var buf, at := content[offset..], |content| - |out|;
    assert out == content[at..];
    if |out| < |buf| {
      assert buf[|buf| - |out| - 1..] == content[at - 1..];
    } else {
      assert out == buf;
    }
  }

  /** printLastLines: read chunks from the end until enough newlines are in hand, then cut.
      A read that fails leaves nothing printed. */
  method PrintLastLines(content: string, n: int, readable: bool) returns (ok: bool, out: string)
    ensures readable ==> ok
    ensures !ok || n < 0 ==> out == []
    ensures ok && n >= 0 ==> LongestTail(content, n, out)
  {
    hide Newlines, NewlinesFrom, LongestTail;
    if |content| == 0 {
      NoNewlines(content);
      TailIs(content, if n < 0 then 0 else n, 0);
      return true, [];
    }
    var buf: string := [];
    var found := 0;
    var offset := |content|;
    NoNewlines(content);
    while offset > 0 && found <= n
      invariant 0 <= offset <= |content| && buf == content[offset..] && found == NewlinesFrom(content, offset)
      invariant n < 0 ==> buf == []
      decreases offset
    {
      var readSize := if CHUNK > offset then offset else CHUNK;
      var fails: bool := *;
      if fails && !readable { return false, []; }
      ChunkBefore(content, offset - readSize, offset);
      offset := offset - readSize;
      var chunk := content[offset..offset + readSize];
      buf := chunk + buf;
      var count := CountNewlines(chunk);
      found := found + count;
    }
    ok := true;
    out := CutLines(buf, n);
    if n >= 0 {
      TailOfRead(content, offset, n, out);
    }
  }

  /** The inner loop over a chunk. */
  method CountNewlines(chunk: string) returns (count: nat)
    ensures count == Newlines(chunk)
  {
    count := 0;
    for i := 0 to |chunk|
      invariant count == Newlines(chunk[..i])
    {
      assert chunk[..i + 1] == chunk[..i] + [chunk[i]];
      NewlinesAppend(chunk[..i], [chunk[i]]);
      if chunk[i] == '\n' {
        count := count + 1;
      }
    }
    assert chunk[..|chunk|] == chunk;
  }

  function NewlinesFrom(buf: string, i: nat): nat
    requires i <= |buf|
  {
    Newlines(buf[i..])
  }

  /** One character further to the front, from the end. */
  lemma NewlinesBefore(buf: string, i: nat)
    requires i < |buf|
    ensures NewlinesFrom(buf, |buf|) == 0
    ensures NewlinesFrom(buf, i) == NewlinesFrom(buf, i + 1) + (if buf[i] == '\n' then 1 else 0)
  {
    assert buf[i..][1..] == buf[i + 1..];
  }

  lemma TailIs(buf: string, n: nat, start: nat)
    requires start <= |buf| && NewlinesFrom(buf, start) <= n
    requires start > 0 ==> NewlinesFrom(buf, start - 1) > n
    ensures LongestTail(buf, n, buf[start..])
  {
    assert |buf| - |buf[start..]| == start;
  }

  /** The second loop: from the back, just behind the newline that is one too many. */
  method CutLines(buf: string, n: int) returns (out: string)
    requires n < 0 ==> buf == []
    ensures n >= 0 ==> LongestTail(buf, n, out)
    ensures n < 0 ==> out == []
  {
    var start := CutAt(buf, n);
    if n >= 0 {
      TailIs(buf, n, start);
    }
    out := buf[start..];
  }

  method CutAt(buf: string, n: int) returns (start: nat)
    requires n < 0 ==> buf == []
    ensures start <= |buf|
    ensures n >= 0 ==> NewlinesFrom(buf, start) <= n && (start > 0 ==> NewlinesFrom(buf, start - 1) > n)
  {
    hide NewlinesFrom;
    var lineCount := 0;
    start := |buf|;
    NoNewlines(buf);
    var i := |buf| - 1;
    while i >= 0
      invariant -1 <= i < |buf| && start == |buf|
      invariant lineCount == NewlinesFrom(buf, i + 1) && (n >= 0 ==> lineCount <= n)
      decreases i
    {
      NewlinesBefore(buf, i);
      if buf[i] == '\n' {
        lineCount := lineCount + 1;
        if lineCount == n + 1 {
          start := i + 1;
          break;
        }
      }
      i := i - 1;
    }
    if lineCount <= n {
      start := 0;
    }
  }

  lemma NoNewlines(s: string)
    ensures NewlinesFrom(s, |s|) == 0
  {
  }

  predicate EndsLine(s: string) {
    s != [] && s[|s| - 1] == '\n'
  }

  /** Lines of a text, a last one without newline included. */
  function Lines(s: string): nat {
    Newlines(s) + (if s == [] || EndsLine(s) then 0 else 1)
  }

  lemma TailNewlines(content: string, n: nat, tail: string)
    requires LongestTail(content, n, tail)
    ensures Newlines(tail) == if Newlines(content) <= n then Newlines(content) else n
    ensures |tail| < |content| ==> Newlines(content) > n
  {
    if |tail| == |content| {
      assert tail == content;
    } else {
      var at := |content| - |tail| - 1;
      assert content[at..] == [content[at]] + tail;
      SuffixMonotone(content, 0, at);
      assert content[0..] == content;
    }
  }

  /** The function is described as printing the last n lines. It does so, no more and no
      fewer, exactly when the log ends in a newline or has at most n lines; a longer log whose
      last line is unfinished gets one line too many. */
  lemma PrintsLastLines(content: string, n: nat, tail: string)
    requires LongestTail(content, n, tail)
    ensures Lines(tail) == (if Lines(content) <= n then Lines(content) else n)
            <==> content == [] || EndsLine(content) || Lines(content) <= n
    ensures content != [] && !EndsLine(content) && Lines(content) > n ==> Lines(tail) == n + 1
  {
    TailNewlines(content, n, tail);
    if content != [] {
      var last := content[|content| - 1..];
      assert last == [content[|content| - 1]];
      assert Newlines(last) == if EndsLine(content) then 1 else 0 by { assert last[1..] == []; }
      assert tail == [] ==> Newlines(content[|content| - 1..]) > n;
      assert tail != [] ==> tail[|tail| - 1] == content[|content| - 1];
      SuffixMonotone(content, 0, |content| - 1);
      assert content[0..] == content;
    }
  }

  // ---- Following a log ----

  datatype Ending = Drained | ReadFailed | WriteFailed

  /** A log that others append to until it is done, and the client it is copied to. */
  class Follower {
    /** The log as it will be when done; what of it is there yet; how far it was read. */
    const final: string
    var visible: nat
    var pos: nat
    var done: bool
    /** How often the poll may still come up empty before done is set. */
    var patience: nat
    /** No read and no write fails. */
    const sound: bool
    /** What has reached the client. */
    var dst: string

    constructor (final: string, patience: nat, sound: bool)
      ensures Valid() && this.final == final && this.sound == sound && pos == 0 && dst == []
    {
      this.sound := sound;
      this.final, this.visible, this.pos, this.done, this.patience, this.dst := final, 0, 0, false, patience, [];
    }

    /** Nothing is there beyond the final log, a log that is done does not grow, and what has
        reached the client is the beginning of the log. */
    ghost predicate Valid()
      reads this
    {
      pos <= visible <= |final| && (done ==> visible == |final|) && dst <= final
    }

    /** Everything read has reached the client. */
    ghost predicate InStep()
      reads this
    {
      Valid() && dst == final[..pos]
    }

    /** The container writes more to its log, or exits. */
    method Grow()
      requires Valid()
      modifies this`visible, this`done
      ensures Valid() && visible >= old(visible) && (old(done) ==> done)
    {
      var more: int := *;
      if !done && visible <= more <= |final| {
        visible := more;
      }
      var exits: bool := *;
      if exits && visible == |final| {
        done := true;
      }
    }

    /** read(2): some of what is there, or end of file, or an error. */
    method Read() returns (chunk: string, eof: bool, failed: bool)
      requires Valid()
      modifies this`visible, this`done, this`pos
      ensures Valid() && old(pos) <= pos && chunk == final[old(pos)..pos] && |chunk| <= BUFFER
      ensures (old(done) ==> done)
      ensures sound ==> !failed
      ensures eof ==> !failed && pos == old(pos) && pos == visible
      ensures !eof && !failed ==> pos > old(pos)
    {
      Grow();
      failed := *;
      failed := failed && !sound;
      var n: int := *;
      if !(1 <= n <= BUFFER && n <= visible - pos) {
        n := if visible > pos && !failed then 1 else 0;
      }
      chunk := final[pos..pos + n];
      pos := pos + n;
      eof := !failed && n == 0;
    }

    method Write(chunk: string) returns (ok: bool)
      requires Valid() && chunk <= final[|dst|..]
      modifies this`dst
      ensures Valid() && (ok ==> dst == old(dst) + chunk) && (sound ==> ok)
    {
      ok := *;
      var n: int := *;
      if !ok && !sound && 0 <= n <= |chunk| {
        dst := dst + chunk[..n];
      } else {
        ok := true;
        dst := dst + chunk;
      }
    }

    /** One of the two drain loops: copy until end of file. */
    method Drain() returns (end: Ending)
      requires InStep()
      modifies this`visible, this`done, this`pos, this`dst
      ensures Valid() && (old(done) ==> done)
      ensures end == Drained ==> InStep() && pos == visible
      ensures sound ==> end == Drained
    {
      while true
        invariant InStep() && (old(done) ==> done)
        decreases |final| - pos
      {
        var chunk, eof, failed := Read();
        if |chunk| > 0 {
          var ok := Write(chunk);
          if !ok { return WriteFailed; }
        }
        if eof { return Drained; }
        if failed { return ReadFailed; }
      }
    }

    /** The select at end of file: the container has exited, or it is time to look again. */
    method Wait() returns (exited: bool)
      requires Valid()
      modifies this`visible, this`done, this`patience
      ensures Valid() && (exited ==> done)
      ensures !exited ==> patience < old(patience)
    {
      Grow();
      if patience == 0 {
        visible, done := |final|, true;
        return true;
      }
      patience := patience - 1;
      var timer: bool := *;
      exited := done && !timer;
    }

    /** tailLogToWriter: what the client has is a beginning of the log at all times, and the
        whole log if the loop ends because the container exited. */
    method TailLogToWriter() returns (end: Ending)
      requires InStep()
      modifies this
      ensures dst <= final
      ensures end == Drained ==> dst == final
      ensures sound ==> end == Drained
    {
      while true
        invariant InStep()
        decreases patience
      {
        end := Drain();
        if end != Drained { return; }
        var exited := Wait();
        if exited {
          end := Drain();
          return;
        }
      }
    }
  }
}
