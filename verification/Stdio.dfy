/** Buffered output streams over file descriptors. */
module Stdio {
  import opened Machine
  import opened Arithmetic

  const KERNEL_FD_FIRST := 3
  const SIZE_MAX := 0xFFFF_FFFF
  const LONG_MAX := 0x7FFF_FFFF
  const EOF := -1
  const SEEK_SET := 0
  const SEEK_CUR := 1
  const SEEK_END := 2
  const IOFBF := 0
  const IOLBF := 1
  const IONBF := 2
  const NEWLINE: byte := 10

  function Zeros(n: nat): (s: seq<byte>)
    ensures |s| == n
  {
    seq<byte>(n, _ => 0)
  }

  /** A file's bytes after data is written at a position. */
  function WriteAt(s: seq<byte>, at: nat, data: seq<byte>): seq<byte> {
    if data == [] then s
    else if at + |data| <= |s| then s[..at] + data + s[at + |data|..]
    else if at <= |s| then s[..at] + data
    else s + Zeros(at - |s|) + data
  }

  /** The bytes in front of a position, filled up with zeros if need be. */
  function Front(s: seq<byte>, at: nat): (f: seq<byte>)
    ensures |f| == at
  {
    if at <= |s| then s[..at] else s + Zeros(at - |s|)
  }

  function Back(s: seq<byte>, from: nat): seq<byte> {
    if from <= |s| then s[from..] else []
  }

  lemma WriteAtIs(s: seq<byte>, at: nat, data: seq<byte>)
    requires data != []
    ensures WriteAt(s, at, data) == Front(s, at) + data + Back(s, at + |data|)
  {
  }

  /** Byte by byte: the data at its place, the old bytes elsewhere, and zeros
      where the file ended in front of it. */
  lemma WriteAtBytes(s: seq<byte>, at: nat, data: seq<byte>)
    requires data != []
    ensures
      var t := WriteAt(s, at, data);
      && |t| == (if |s| < at + |data| then at + |data| else |s|)
      && forall i :: 0 <= i < |t| ==> t[i] == if at <= i < at + |data| then data[i - at] else if i < |s| then s[i] else 0
  {
    hide WriteAt;
    WriteAtIs(s, at, data);
  }

  /** Writing in two goes is writing at once. */
  lemma WriteAtTwice(s: seq<byte>, at: nat, a: seq<byte>, b: seq<byte>)
    ensures WriteAt(WriteAt(s, at, a), at + |a|, b) == WriteAt(s, at, a + b)
  {
    if a == [] {
      assert a + b == b;
    } else if b == [] {
      assert a + b == a;
    } else {
      TwoWrites(s, at, a, b);
    }
  }

  lemma TwoWrites(s: seq<byte>, at: nat, a: seq<byte>, b: seq<byte>)
    requires a != [] && b != []
    ensures WriteAt(WriteAt(s, at, a), at + |a|, b) == WriteAt(s, at, a + b)
  {
    hide WriteAt, Front, Back;
    WriteAtIs(s, at, a);
    WriteAtIs(s, at, a + b);
    var s1 := WriteAt(s, at, a);
    WriteAtIs(s1, at + |a|, b);
    FrontBack(Front(s, at) + a, s, at + |a|, |b|);
    assert Front(s, at) + (a + b) == Front(s, at) + a + b;
  }

  lemma FrontBack(f: seq<byte>, s: seq<byte>, at: nat, n: nat)
    requires |f| == at
    ensures Front(f + Back(s, at), at) == f && Back(f + Back(s, at), at + n) == Back(s, at + n)
  {
  }

  /** What the kernel answers to one write: a failure, or a leading part of at
      most so many bytes. */
  datatype Answer = Refuses | Takes(most: nat)

  /** How many of n bytes the first answer takes; with no answer left, all. */
  function FirstTakes(answers: seq<Answer>, n: nat): (k: nat)
    ensures k <= n
  {
    if answers == [] then n
    else match answers[0]
      case Refuses => 0
      case Takes(most) => if most < n then most else n
  }

  function OtherAnswers(answers: seq<Answer>): seq<Answer> {
    if answers == [] then [] else answers[1..]
  }

  /** How many of n bytes leave through partial writes before one of them takes
      nothing, with room for so many in front of the largest offset. */
  function Leaves(answers: seq<Answer>, room: nat, n: nat): (k: nat)
    ensures k <= n && k <= room
    decreases n
  {
    var first := FirstTakes(answers, n);
    if first == 0 || first > room then 0 else first + Leaves(OtherAnswers(answers), room - first, n - first)
  }

  /** And what the device will answer afterwards. */
  function AnswersAfter(answers: seq<Answer>, room: nat, n: nat): (rest: seq<Answer>)
    ensures n == 0 ==> rest == answers
    decreases n
  {
    var first := FirstTakes(answers, n);
    if n == 0 then answers
    else if first == 0 || first > room then OtherAnswers(answers)
    else AnswersAfter(OtherAnswers(answers), room - first, n - first)
  }

  /** How many of n bytes leave when, after one try, all are tried again. */
  function LeavesAgain(answers: seq<Answer>, room: nat, n: nat): (k: nat)
    ensures k <= n
  {
    Leaves(AnswersAfter(answers, room, n), room - Leaves(answers, room, n), n)
  }

  /** Some device lets a part of n bytes out, then refuses, exactly when n is at
      least two and there is room for one. */
  lemma PartLeaves(room: nat, n: nat)
    ensures (exists answers :: 0 < Leaves(answers, room, n) < n) <==> n >= 2 && room >= 1
  {
    if n >= 2 && room >= 1 {
      TakesOne([], room, n);
    }
  }

  /** And takes a byte a second time when all are tried again exactly when there
      is also room for that one. */
  lemma PartRepeats(room: nat, n: nat)
    ensures (exists answers :: 0 < Leaves(answers, room, n) < n && LeavesAgain(answers, room, n) > 0) <==> n >= 2 && room >= 2
  {
    hide Leaves, AnswersAfter;
    if n >= 2 && room >= 2 {
      TakesOne([Takes(1)], room, n);
      OneLeaves(room - 1, n);
    }
  }

  /** And then takes all of them exactly when there is room for n and one. */
  lemma AllRepeat(room: nat, n: nat)
    ensures (exists answers :: 0 < Leaves(answers, room, n) < n && LeavesAgain(answers, room, n) == n) <==> n >= 2 && room >= n + 1
  {
    hide Leaves, AnswersAfter;
    if n >= 2 && room >= n + 1 {
      TakesOne([], room, n);
      AllLeave(room - 1, n);
    }
  }

  lemma AllLeave(room: nat, n: nat)
    requires n <= room
    ensures Leaves([], room, n) == n
  {
  }

  lemma OneLeaves(room: nat, n: nat)
    requires n >= 1 && room >= 1
    ensures Leaves([Takes(1)], room, n) > 0
  {
  }

  /** A device that takes one byte, refuses, and goes on with rest. */
  lemma TakesOne(rest: seq<Answer>, room: nat, n: nat)
    requires n >= 2 && room >= 1
    ensures Leaves([Takes(1), Refuses] + rest, room, n) == 1 && AnswersAfter([Takes(1), Refuses] + rest, room, n) == rest
  {
    assert OtherAnswers([Takes(1), Refuses] + rest) == [Refuses] + rest && OtherAnswers([Refuses] + rest) == rest;
  }

  /** What a descriptor refers to: a file, or for 1 and 2 the terminal, whose
      output so far counts as the contents. sent is every byte handed over, in
      order. answers is what the device will say to the writes to come: any
      device is some such sequence. failed remembers that the kernel refused a
      transfer. */
  class Channel {
    var contents: seq<byte>
    var offset: nat
    var sent: seq<byte>
    var answers: seq<Answer>
    ghost var failed: bool

    constructor (contents: seq<byte>, offset: nat, answers: seq<Answer>)
      ensures this.contents == contents && this.offset == offset && this.answers == answers && sent == [] && !failed
    {
      this.contents, this.offset, this.answers, sent, failed := contents, offset, answers, [], false;
    }

    /** How many of n bytes the next write takes. */
    function Accepts(n: nat): (k: nat)
      reads this
      ensures k <= n
    {
      var k := FirstTakes(answers, n);
      if offset + k > SIZE_MAX then 0 else k
    }

    /** And how many repeated writes take. */
    function Left(n: nat): (k: nat)
      reads this
      ensures k <= n
    {
      if offset > SIZE_MAX then 0 else Leaves(answers, SIZE_MAX - offset, n)
    }

    /** And how many when all are tried again. */
    function LeftAgain(n: nat): (k: nat)
      reads this
      ensures k <= n
    {
      if offset > SIZE_MAX then 0 else LeavesAgain(answers, SIZE_MAX - offset, n)
    }

    function Then(n: nat): seq<Answer>
      reads this
    {
      if offset > SIZE_MAX then answers else AnswersAfter(answers, SIZE_MAX - offset, n)
    }

    /** kernel_fd_write: takes a leading part of the data, or fails. Taking
        nothing counts as a failure, because the callers give up then. A failed
        write may leave anything in the file. */
    method Write(data: seq<byte>) returns (ok: bool, written: nat)
      modifies this
      ensures answers == OtherAnswers(old(answers)) && (ok && written > 0 <==> old(Accepts(|data|)) > 0)
      ensures ok && written > 0 ==> written == old(Accepts(|data|)) && failed == old(failed)
      ensures ok && written > 0 ==> sent == old(sent) + data[..written] && contents == WriteAt(old(contents), old(offset), data[..written])
      ensures ok && written > 0 ==> offset == old(offset) + written <= SIZE_MAX
      ensures !(ok && written > 0) ==> failed && sent == old(sent) && offset == old(offset) && old(Left(|data|)) == 0
      ensures ok && written > 0 ==> old(Left(|data|)) == written + Left(|data| - written) && old(Then(|data|)) == Then(|data| - written)
      ensures !(ok && written > 0) && data != [] && old(offset) <= SIZE_MAX ==> answers == old(Then(|data|))
    {
      var part := Accepts(|data|);
      answers := OtherAnswers(answers);
      if part == 0 {
        failed := true;
        var reported: bool := *;
        var junk: seq<byte> := *;
        contents := junk;
        return reported, 0;
      }
      contents := WriteAt(contents, offset, data[..part]);
      sent := sent + data[..part];
      offset := offset + part;
      return true, part;
    }

    /** terminal_write: takes everything. */
    method TerminalWrite(data: seq<byte>)
      modifies this`contents, this`sent, this`offset
      ensures sent == old(sent) + data && contents == WriteAt(old(contents), old(offset), data) && offset == old(offset) + |data|
    {
      contents := WriteAt(contents, offset, data);
      sent := sent + data;
      offset := offset + |data|;
    }

    /** Where a seek would go. */
    function Target(distance: int, whence: int): int
      reads this
    {
      distance + if whence == SEEK_SET then 0 else if whence == SEEK_CUR then offset else |contents|
    }

    /** kernel_fd_seek */
    method Seek(distance: int, whence: int) returns (ok: bool, position: nat)
      modifies this`offset, this`failed
      ensures ok ==> position == offset == old(Target(distance, whence)) <= SIZE_MAX && failed == old(failed)
      ensures !ok ==> offset == old(offset)
      ensures !ok ==> failed || old(Target(distance, whence)) < 0 || old(Target(distance, whence)) > SIZE_MAX
    {
      var target := Target(distance, whence);
      if target < 0 || target > SIZE_MAX {
        return false, 0;
      }
      var broken: bool := *;
      if broken {
        failed := true;
        return false, 0;
      }
      offset := target;
      return true, target;
    }
  }

  /* ---------- the account of a stream ---------- */

  /** What has left a stream and what waits in it. */
  datatype Account = Account(sent: seq<byte>, contents: seq<byte>, offset: nat, pending: seq<byte>)

  /** The contents and the position that the program sees. */
  function LogicalContents(a: Account): seq<byte> {
    WriteAt(a.contents, a.offset, a.pending)
  }

  function LogicalPosition(a: Account): nat {
    a.offset + |a.pending|
  }

  /** From a to b the program wrote data, and nothing else happened: however
      much of it left the stream, the bytes sent followed by the bytes pending
      grew by data, and so did the file at the logical position. */
  predicate Extends(a: Account, b: Account, data: seq<byte>) {
    && b.sent + b.pending == a.sent + a.pending + data
    && LogicalContents(b) == WriteAt(LogicalContents(a), LogicalPosition(a), data)
    && LogicalPosition(b) == LogicalPosition(a) + |data|
  }

  /** All of data is accounted for, and line mode still leaves no line end waiting. */
  predicate Through(a: Account, lines: bool, b: Account, lines': bool, data: seq<byte>) {
    Extends(a, b, data) && (lines ==> lines')
  }

  /** From a to b the program wrote data, and at most a flush failed: the bytes
      sent and pending are those of before with data behind them, except that
      the first k pending bytes have also left. */
  ghost predicate Stalled(a: Account, b: Account, data: seq<byte>, k: nat) {
    && k <= |b.sent| && k <= |b.pending| && b.sent[|b.sent| - k..] == b.pending[..k]
    && b.sent[..|b.sent| - k] + b.pending == a.sent + a.pending + data
  }

  ghost predicate Taken(a: Account, b: Account, data: seq<byte>) {
    exists k: nat :: Stalled(a, b, data, k)
  }

  lemma ExtendsTaken(a: Account, b: Account, data: seq<byte>)
    requires b.sent + b.pending == a.sent + a.pending + data
    ensures Taken(a, b, data)
  {
    assert b.sent[..|b.sent| - 0] == b.sent;
    assert Stalled(a, b, data, 0);
  }

  /** A flush lets k bytes out and fails. */
  lemma FailedTaken(a: Account, b: Account, k: nat)
    requires k <= |a.pending| && b.pending == a.pending && b.sent == a.sent + a.pending[..k]
    ensures Taken(a, b, [])
  {
    assert b.sent[..|b.sent| - k] == a.sent && a.sent + a.pending + [] == a.sent + a.pending;
    assert Stalled(a, b, [], k);
  }

  lemma TakenAfter(a: Account, b: Account, c: Account, x: seq<byte>, y: seq<byte>)
    requires b.sent + b.pending == a.sent + a.pending + x && Taken(b, c, y)
    ensures Taken(a, c, x + y)
  {
    var k: nat :| Stalled(b, c, y, k);
    assert a.sent + a.pending + (x + y) == a.sent + a.pending + x + y;
    assert Stalled(a, c, x + y, k);
  }

  /** Likewise for the next part of data. */
  lemma TakenOnward(a: Account, b: Account, c: Account, data: seq<byte>, done: nat, k: nat)
    requires done + k <= |data| && Extends(a, b, data[..done]) && Taken(b, c, data[done..done + k])
    ensures Taken(a, c, data[..done + k])
  {
    hide Taken;
    TakenAfter(a, b, c, data[..done], data[done..done + k]);
    assert data[..done] + data[done..done + k] == data[..done + k];
  }

  lemma FailedPending(a: Account, b: Account, c: Account, x: seq<byte>, k: nat)
    requires b == a.(pending := a.pending + x) && k <= |b.pending| && c.pending == b.pending && c.sent == b.sent + b.pending[..k]
    ensures Taken(a, c, x)
  {
    hide Taken;
    FailedTaken(b, c, k);
    PendingTaken(a, b, c, x);
  }

  lemma PendingTaken(a: Account, b: Account, c: Account, x: seq<byte>)
    requires b == a.(pending := a.pending + x) && Taken(b, c, [])
    ensures Taken(a, c, x)
  {
    hide Taken;
    assert b.sent + b.pending == a.sent + a.pending + x && x + [] == x;
    TakenAfter(a, b, c, x, []);
  }

  lemma OnlyTaken(a: Account, b: Account, data: seq<byte>)
    requires Extends(a, b, data)
    ensures Taken(a, b, data)
  {
    hide Taken;
    ExtendsTaken(a, b, data);
  }

  lemma NoneTaken(a: Account, data: seq<byte>)
    ensures Taken(a, a, data[..0])
  {
    hide Taken;
    assert data[..0] == [];
    ExtendsTaken(a, a, data[..0]);
  }

  lemma AllTaken(a: Account, lines: bool, b: Account, lines': bool, data: seq<byte>)
    requires Through(a, lines, b, lines', data)
    ensures Taken(a, b, data[..|data|])
  {
    hide Taken;
    assert data[..|data|] == data;
    OnlyTaken(a, b, data);
  }

  lemma TakenThen(a: Account, b: Account, c: Account, x: seq<byte>)
    requires Extends(a, b, []) && Taken(b, c, x)
    ensures Taken(a, c, x)
  {
    hide Taken;
    TakenAfter(a, b, c, [], x);
    assert [] + x == x;
  }

  lemma ExtendsNothing(a: Account)
    ensures Extends(a, a, [])
  {
  }

  lemma ExtendsTwice(a: Account, b: Account, c: Account, x: seq<byte>, y: seq<byte>)
    requires Extends(a, b, x) && Extends(b, c, y)
    ensures Extends(a, c, x + y)
  {
    hide WriteAt;
    WriteAtTwice(LogicalContents(a), LogicalPosition(a), x, y);
    assert a.sent + a.pending + (x + y) == (a.sent + a.pending + x) + y;
  }

  /** More data in the buffer. */
  lemma ExtendsPending(a: Account, data: seq<byte>)
    ensures Extends(a, a.(pending := a.pending + data), data)
  {
    hide WriteAt;
    WriteAtTwice(a.contents, a.offset, a.pending, data);
  }

  /** The first k pending bytes leave the stream. */
  lemma ExtendsSent(a: Account, k: nat)
    requires k <= |a.pending|
    ensures Extends(a, Account(a.sent + a.pending[..k], WriteAt(a.contents, a.offset, a.pending[..k]), a.offset + k, a.pending[k..]), [])
  {
    hide WriteAt;
    WriteAtTwice(a.contents, a.offset, a.pending[..k], a.pending[k..]);
    assert a.pending[..k] + a.pending[k..] == a.pending;
    NoWrite(LogicalContents(a), LogicalPosition(a));
  }

  lemma NoWrite(s: seq<byte>, at: nat)
    ensures WriteAt(s, at, []) == s
  {
  }

  /* ---------- streams ---------- */

  class File {
    const fd: int
    const io: Channel
    var readable: bool
    var writable: bool
    var eof: bool
    var error: bool
    var bufferOwned: bool
    var pushback: int
    var hasPushback: bool
    var writeBuffer: array?<byte>
    var writeBufferSize: nat
    var writeBufferUsed: nat
    var bufferingMode: int

    predicate Valid()
      reads this, io
    {
      && writeBufferUsed <= writeBufferSize <= SIZE_MAX
      && (if writeBuffer == null then writeBufferSize == 0 else writeBufferSize <= writeBuffer.Length)
      && (writeBufferUsed > 0 ==> writable)
      && (fd >= KERNEL_FD_FIRST ==> io.offset <= SIZE_MAX)
    }

    predicate Buffered()
      reads this
    {
      writeBuffer != null && writeBufferSize != 0
    }

    /** A descriptor that output can go to. */
    predicate Connected() {
      fd == 1 || fd == 2 || fd >= 3
    }

    function Pending(): seq<byte>
      reads this, writeBuffer
    {
      if writeBuffer == null || writeBufferUsed > writeBuffer.Length then [] else writeBuffer[..writeBufferUsed]
    }

    ghost function Now(): Account
      reads this, io, writeBuffer
    {
      Account(io.sent, io.contents, io.offset, Pending())
    }

    /** In line mode no newline waits, and the buffer is never left full. */
    predicate Lines()
      reads this, writeBuffer
    {
      bufferingMode == IOLBF && Buffered() ==> NEWLINE !in Pending() && writeBufferUsed < writeBufferSize
    }

    constructor (fd: int, io: Channel, readable: bool, writable: bool)
      requires io.offset <= SIZE_MAX
      ensures Valid() && Lines() && Pending() == [] && this.fd == fd && this.io == io && this.writable == writable
      ensures !error && writeBuffer == null
    {
      this.fd, this.io, this.readable, this.writable := fd, io, readable, writable;
      eof, error, bufferOwned, pushback, hasPushback := false, false, false, 0, false;
      writeBuffer, writeBufferSize, writeBufferUsed, bufferingMode := null, 0, 0, IONBF;
    }

    /** How many of n bytes a flush would get out. */
    function Goes(n: nat): (k: nat)
      reads io
      ensures k <= n
    {
      if fd == 1 || fd == 2 then n else if fd < KERNEL_FD_FIRST then 0 else io.Left(n)
    }

    /** The loop of fflush over partial writes. */
    method Drain() returns (ok: bool)
      requires Valid() && fd >= KERNEL_FD_FIRST && writeBuffer != null
      modifies io
      ensures Valid() && (!ok ==> io.failed)
      ensures ok ==> io.sent == old(io.sent) + Pending() && io.contents == WriteAt(old(io.contents), old(io.offset), Pending())
      ensures io.offset == old(io.offset) + old(Goes(|Pending()|)) && (ok ==> io.failed == old(io.failed))
      ensures ok <==> old(Goes(|Pending()|)) == |Pending()|
      ensures io.sent == old(io.sent) + Pending()[..old(Goes(|Pending()|))] && io.answers == old(io.Then(|Pending()|))
    {
      hide WriteAt, Leaves, FirstTakes, OtherAnswers, AnswersAfter;
      ghost var start, at, sent := io.contents, io.offset, io.sent;
      ghost var pending := Pending();
      ghost var k, answers := Goes(|pending|), io.Then(|pending|);
      NoWrite(start, at);
      var offset := 0;
      while offset < writeBufferUsed
        invariant offset <= writeBufferUsed == |pending| && Valid() && Pending() == pending
        invariant io.sent == sent + pending[..offset] && io.contents == WriteAt(start, at, pending[..offset])
        invariant io.offset == at + offset && io.failed == old(io.failed)
        invariant k == offset + io.Left(|pending| - offset) && io.Then(|pending| - offset) == answers
      {
        var written: nat;
        ok, written := io.Write(writeBuffer[offset..writeBufferUsed]);
        if !ok || written == 0 {
          return false;
        }
        WriteAtTwice(start, at, pending[..offset], pending[offset..offset + written]);
        assert pending[offset..][..written] == pending[offset..offset + written];
        assert pending[..offset + written] == pending[..offset] + pending[offset..offset + written];
        offset := offset + written;
      }
      assert pending[..offset] == pending;
      ok := true;
    }

    /** fflush: everything pending leaves the stream, through as many partial
        writes as it takes. When a write fails the leading part that has left
        is still pending with the rest. */
    method Flush() returns (ok: bool)
      requires Valid()
      modifies this`writeBufferUsed, this`error, io
      ensures Valid() && (ok ==> Pending() == [] && Extends(old(Now()), Now(), []) && io.failed == old(io.failed) && error == old(error))
      ensures !ok ==> error && (!writable || io.failed || (!Connected() && old(Pending()) != []))
      ensures ok <==> writable && old(Goes(|Pending()|) == |Pending()|)
      ensures io.sent == old(io.sent + Pending()[..Goes(|Pending()|)]) && (!ok ==> Pending() == old(Pending()))
      ensures old(Pending()) == [] ==> unchanged(io)
      ensures fd >= KERNEL_FD_FIRST && old(Pending()) != [] ==>
                io.offset == old(io.offset + Goes(|Pending()|)) && io.answers == old(io.Then(|Pending()|))
      ensures !writable ==> !ok && io.sent == old(io.sent) && io.contents == old(io.contents) && io.offset == old(io.offset)
    {
      hide WriteAt, Extends;
      ghost var a := Now();
      if !writable {
        NoneSent(a);
        error := true;
        return false;
      }
      if writeBufferUsed == 0 {
        ExtendsNothing(a);
        return true;
      }
      ExtendsSent(a, |a.pending|);
      AllOf(a.pending);
      if fd == 1 || fd == 2 {
        io.TerminalWrite(writeBuffer[..writeBufferUsed]);
        writeBufferUsed := 0;
        return true;
      }
      if fd >= KERNEL_FD_FIRST {
        ok := Drain();
        if !ok {
          error := true;
          return false;
        }
        writeBufferUsed := 0;
        return true;
      }
      NoneSent(a);
      error := true;
      ok := false;
    }

    /** A flush after a failed one: what had left the first time leaves once
        more, so the descriptor gets the pending bytes exactly once if and only
        if nothing had left. */
    method FlushTwice() returns (first: bool, second: bool)
      requires Valid()
      modifies this`writeBufferUsed, this`error, io
      ensures Valid() && (first ==> second) && (first <==> writable && old(Goes(|Pending()|) == |Pending()|))
      ensures first ==> io.sent == old(io.sent + Pending())
      ensures !first && second ==>
                io.sent == old(io.sent + Pending()[..Goes(|Pending()|)] + Pending()) && old(Goes(|Pending()|) < |Pending()|)
      ensures !first && fd >= KERNEL_FD_FIRST && writable ==>
                && (second <==> old(io.LeftAgain(|Pending()|) == |Pending()|))
                && io.sent == old(io.sent + Pending()[..Goes(|Pending()|)] + Pending()[..io.LeftAgain(|Pending()|)])
      ensures !first && second ==> (io.sent == old(io.sent + Pending()) <==> old(Goes(|Pending()|)) == 0)
    {
      hide WriteAt, Extends;
      ghost var sent, pending, k := io.sent, Pending(), Goes(|Pending()|);
      first := Flush();
      second := Flush();
      AllOf(pending);
      if !first && second {
        assert io.sent == sent + pending[..k] + pending;
        assert |io.sent| == |sent| + k + |pending|;
        NoneSent(Account(sent, [], 0, pending));
      }
    }

    /** Copies count bytes of data into the free part of the buffer. */
    method Fill(data: seq<byte>, from: nat, count: nat)
      requires Valid() && Buffered() && writable && from + count <= |data| && writeBufferUsed + count <= writeBufferSize
      modifies this`writeBufferUsed, writeBuffer
      ensures Valid() && Now() == old(Now()).(pending := old(Pending()) + data[from..from + count])
      ensures writeBufferUsed == old(writeBufferUsed) + count
    {
      forall i | 0 <= i < count {
        writeBuffer[writeBufferUsed + i] := data[from + i];
      }
      writeBufferUsed := writeBufferUsed + count;
      assert Pending() == old(Pending()) + data[from..from + count];
    }

    /** One round in line mode: the byte, and a flush at the end of a line or
        when the buffer is full. */
    method PutInLine(data: seq<byte>, at: nat) returns (ok: bool)
      requires Valid() && Buffered() && writable && at < |data| && writeBufferUsed < writeBufferSize && bufferingMode == IOLBF
      modifies this`writeBufferUsed, this`error, io, writeBuffer
      ensures Valid() && (!ok ==> error && (io.failed || !Connected()) && Taken(old(Now()), Now(), data[at..at + 1]))
      ensures ok ==> Extends(old(Now()), Now(), data[at..at + 1]) && io.failed == old(io.failed) && error == old(error)
      ensures ok && old(Lines()) ==> Lines()
      ensures !ok ==> !Lines() && LineFill(old(writeBufferUsed), writeBufferSize, data[at]) == 0
      ensures !ok && old(Goes(writeBufferUsed + 1)) <= old(writeBufferUsed) ==> LineKept(old(Pending()), data[at], old(io.sent), old(Goes(writeBufferUsed + 1)))
      ensures ok ==> writeBufferUsed == LineFill(old(writeBufferUsed), writeBufferSize, data[at])
      ensures LineFill(old(writeBufferUsed), writeBufferSize, data[at]) == 0 && old(Goes(writeBufferUsed + 1)) <= old(writeBufferUsed) ==> !ok
    {
      hide WriteAt, Extends, Taken, Channel.Left, Channel.Then, File.Goes;
      ghost var a := Now();
      ExtendsPending(a, data[at..at + 1]);
      Fill(data, at, 1);
      ok := true;
      if data[at] == NEWLINE || writeBufferUsed == writeBufferSize {
        ghost var b, k := Now(), Goes(|Pending()|);
        ok := Flush();
        if ok {
          ExtendsSame(a, b, Now(), data[at..at + 1]);
        } else {
          FailedPending(a, b, Now(), data[at..at + 1], k);
        }
      }
    }

    /** Data that a buffer in full mode has room for. */
    predicate Fits(n: nat)
      reads this
    {
      Buffered() && bufferingMode != IOLBF && writeBufferUsed + n <= writeBufferSize
    }

    /** Line mode, and the last byte of data will end a line or fill the buffer. */
    predicate AtLineEnd(data: seq<byte>)
      reads this
    {
      Buffered() && bufferingMode == IOLBF && LineFills(writeBufferUsed, writeBufferSize, data) == 0
    }

    /** One byte that ends a line, for which the device will not take all of it. */
    predicate LosesLine(c: byte)
      reads this, io
    {
      writable && AtLineEnd([c]) && writeBufferUsed < writeBufferSize && Goes(writeBufferUsed + 1) <= writeBufferUsed
    }

    /** The line and its last byte are still in the buffer, and the first k
        bytes of it have left. */
    predicate LineKept(line: seq<byte>, c: byte, sent: seq<byte>, k: nat)
      reads this, io, writeBuffer
    {
      && Pending() == line + [c] && !Lines()
      && k <= |line| && io.sent == sent + line[..k]
    }

    /** The flush of a full buffer. */
    method MakeRoom() returns (ok: bool)
      requires Valid() && Buffered() && writable
      modifies this`writeBufferUsed, this`error, io
      ensures Valid() && (!ok ==> error && (io.failed || !Connected()) && Taken(old(Now()), Now(), []))
      ensures ok ==> Extends(old(Now()), Now(), []) && io.failed == old(io.failed) && error == old(error) && (old(Lines()) ==> Lines())
      ensures ok ==> writeBufferUsed == if old(writeBufferUsed) == writeBufferSize then 0 else old(writeBufferUsed)
      ensures old(writeBufferUsed) < writeBufferSize ==> ok && unchanged(this) && unchanged(io)
      ensures old(writeBufferUsed) < writeBufferSize ==> Pending() == old(Pending()) && Goes(writeBufferUsed + 1) == old(Goes(writeBufferUsed + 1))
    {
      hide WriteAt, Extends, Goes, Taken;
      Counted();
      ghost var a, k := Now(), Goes(|Pending()|);
      ExtendsNothing(a);
      ok := true;
      if writeBufferUsed == writeBufferSize {
        ok := Flush();
        Counted();
        if !ok {
          FailedTaken(a, Now(), k);
        }
      }
    }

    /** One round of the loop below. */
    method Round(data: seq<byte>, at: nat) returns (ok: bool, next: nat)
      requires Valid() && Buffered() && writable && at < |data|
      modifies this`writeBufferUsed, this`error, io, writeBuffer
      ensures Valid() && at <= next <= |data| && (!ok ==> error && (io.failed || !Connected()) && Taken(old(Now()), Now(), data[at..next]))
      ensures ok ==> at < next && Through(old(Now()), old(Lines()), Now(), Lines(), data[at..next]) && io.failed == old(io.failed) && error == old(error)
      ensures ok && bufferingMode == IOLBF ==> next == at + 1 && writeBufferUsed == LineFill(old(writeBufferUsed), writeBufferSize, data[at])
      ensures !ok && next == |data| ==> bufferingMode == IOLBF && next == at + 1 && LineFill(old(writeBufferUsed), writeBufferSize, data[at]) == 0 && !Lines()
      ensures old(Fits(|data| - at)) ==> ok && next == |data| && unchanged(io)
      ensures old(LosesLine(data[at])) ==> !ok && next == at + 1 && LineKept(old(Pending()), data[at], old(io.sent), old(Goes(writeBufferUsed + 1)))
    {
      hide WriteAt, Extends, Goes, LineKept, Taken;
      LineFillsNext(writeBufferUsed, writeBufferSize, [data[at]], 0);
      ghost var a := Now();
      assert data[at..at] == [];
      ok := MakeRoom();
      if !ok {
        return false, at;
      }
      var available := writeBufferSize - writeBufferUsed;
      ghost var b := Now();
      if bufferingMode == IOLBF {
        ok := PutInLine(data, at);
        if ok {
          ExtendsThen(a, b, Now(), data[at..at + 1]);
        } else {
          TakenThen(a, b, Now(), data[at..at + 1]);
        }
        return ok, at + 1;
      }
      var remaining := |data| - at;
      var chunk := if remaining < available then remaining else available;
      ExtendsPending(b, data[at..at + chunk]);
      Fill(data, at, chunk);
      ExtendsThen(a, b, Now(), data[at..at + chunk]);
      return true, at + chunk;
    }

    /** The buffered half of fwrite, in full and in line mode. All of data can
        be consumed and yet a flush have failed only where a line ends. */
    method WriteBuffered(data: seq<byte>) returns (ok: bool, consumed: nat)
      requires Valid() && Buffered() && writable
      modifies this`writeBufferUsed, this`error, io, writeBuffer
      ensures Valid() && consumed <= |data| && (!ok ==> error && (io.failed || !Connected()))
      ensures Taken(old(Now()), Now(), data[..consumed])
      ensures ok ==> consumed == |data| && Through(old(Now()), old(Lines()), Now(), Lines(), data) && io.failed == old(io.failed) && error == old(error)
      ensures !ok && consumed == |data| ==> old(AtLineEnd(data)) && !Lines()
      ensures old(Fits(|data|)) ==> ok && unchanged(io)
      ensures |data| == 1 && old(LosesLine(data[0])) ==> !ok && consumed == 1 && LineKept(old(Pending()), data[0], old(io.sent), old(Goes(writeBufferUsed + 1)))
    {
      hide WriteAt, Extends, Valid, Lines, LosesLine, LineFill, LineKept, Taken;
      ghost var a := Now();
      ghost var used := writeBufferUsed;
      consumed := 0;
      ExtendsNothing(a);
      while consumed < |data|
        invariant Valid() && consumed <= |data|
        invariant Extends(a, Now(), data[..consumed]) && io.failed == old(io.failed) && error == old(error) && (old(Lines()) ==> Lines())
        invariant bufferingMode == IOLBF ==> writeBufferUsed == LineFills(used, writeBufferSize, data[..consumed])
        invariant consumed == 0 ==> unchanged(io) && writeBufferUsed == used && Now() == a
        invariant old(Fits(|data|)) ==> unchanged(io) && (consumed == 0 || consumed == |data|)
        invariant consumed > 0 && |data| == 1 ==> !old(LosesLine(data[0]))
        decreases |data| - consumed
      {
        ghost var b := Now();
        var next: nat;
        LineFillsNext(used, writeBufferSize, data, consumed);
        ok, next := Round(data, consumed);
        assert data[..|data|] == data;
        if !ok {
          TakenOnward(a, b, Now(), data, consumed, next - consumed);
          return false, next;
        }
        Onward(a, b, Now(), data, consumed, next - consumed);
        consumed := next;
      }
      assert data[..consumed] == data;
      OnlyTaken(a, Now(), data);
      ok := true;
    }

    /** The unbuffered half of fwrite for files: partial writes until done. */
    method WriteDescriptor(data: seq<byte>) returns (ok: bool, consumed: nat)
      requires Valid() && !Buffered() && fd >= KERNEL_FD_FIRST
      modifies this`error, io
      ensures Valid() && consumed <= |data| && (!ok ==> error && io.failed && (data != [] ==> consumed < |data|))
      ensures consumed == old(io.Left(|data|)) && (ok <==> consumed == |data|) && Pending() == []
      ensures io.sent == old(io.sent) + data[..consumed] && io.offset == old(io.offset) + consumed
      ensures ok ==> consumed == |data| && Through(old(Now()), old(Lines()), Now(), Lines(), data) && io.failed == old(io.failed) && error == old(error)
    {
      hide WriteAt, Extends, Leaves, FirstTakes, OtherAnswers, AnswersAfter;
      ghost var a := Now();
      consumed := 0;
      ExtendsNothing(a);
      while consumed < |data|
        invariant Valid() && consumed <= |data| && !Buffered()
        invariant old(io.Left(|data|)) == consumed + io.Left(|data| - consumed)
        invariant io.sent == old(io.sent) + data[..consumed] && io.offset == old(io.offset) + consumed
        invariant Extends(a, Now(), data[..consumed]) && io.failed == old(io.failed) && error == old(error)
      {
        ghost var b := Now();
        var written: nat;
        ok, written := io.Write(data[consumed..]);
        if !ok {
          error := true;
          return false, consumed;
        }
        if written == 0 {
          error := true;
          return false, consumed;
        }
        assert data[consumed..][..written] == data[consumed..consumed + written];
        assert data[..consumed + written] == data[..consumed] + data[consumed..consumed + written];
        ExtendsDirect(b, data[consumed..consumed + written]);
        Onward(a, b, Now(), data, consumed, written);
        consumed := consumed + written;
      }
      assert data[..consumed] == data;
      ok := true;
    }

    /** The unbuffered half of fwrite for the terminal: byte by byte. */
    method WriteTerminal(data: seq<byte>, size: nat, nmemb: nat) returns (completed: nat)
      requires Valid() && !Buffered() && fd < KERNEL_FD_FIRST && writable && |data| == Total(size, nmemb) && size > 0
      modifies this`writeBufferUsed, this`error, io, writeBuffer
      ensures Valid() && completed <= nmemb && (completed < nmemb ==> error)
      ensures Connected() ==> completed == nmemb && Through(old(Now()), old(Lines()), Now(), Lines(), data) && error == old(error) && io.failed == old(io.failed)
      ensures nmemb > 0 && !Connected() ==> completed == 0 && error && Now() == old(Now())
      decreases 2
    {
      hide WriteAt, Extends;
      ghost var a := Now();
      completed := 0;
      ExtendsNothing(a);
      for element := 0 to nmemb
        invariant Valid() && !Buffered() && completed == element && element * size <= |data|
        invariant Extends(a, Now(), data[..element * size]) && error == old(error) && io.failed == old(io.failed)
        invariant if element > 0 then Connected() else Now() == a
      {
        MulLess(element, nmemb, size);
        for b := 0 to size
          invariant Valid() && !Buffered()
          invariant Extends(a, Now(), data[..element * size + b]) && error == old(error) && io.failed == old(io.failed)
          invariant if element > 0 || b > 0 then Connected() else Now() == a
        {
          var offset := element * size + b;
          ghost var before := Now();
          var c := Fputc(data[offset]);
          if c == EOF {
            return completed;
          }
          assert data[offset..offset + 1] == [data[offset]];
          Onward(a, before, Now(), data, offset, 1);
        }
        MulNext(element, size);
        completed := completed + 1;
      }
      assert data[..nmemb * size] == data;
    }

    /** fputc */
    method Fputc(c: byte) returns (r: int)
      requires Valid()
      modifies this`writeBufferUsed, this`error, io, writeBuffer
      ensures Valid() && (r == c || r == -1) && (r == -1 ==> error && (!writable || io.failed || !Connected()))
      ensures r != EOF && !error ==> Through(old(Now()), old(Lines()), Now(), Lines(), [c])
      ensures writable && Connected() && !io.failed ==> r == c && error == old(error) && Through(old(Now()), old(Lines()), Now(), Lines(), [c])
      ensures r == c ==> Through(old(Now()), old(Lines()), Now(), Lines(), [c]) || (old(AtLineEnd([c])) && !Lines())
      ensures old(LosesLine(c)) ==> r == c && LineKept(old(Pending()), c, old(io.sent), old(Goes(writeBufferUsed + 1)))
      ensures !Buffered() && fd < KERNEL_FD_FIRST ==> io.failed == old(io.failed) && (r == c <==> writable && Connected()) && (r != EOF ==> Through(old(Now()), old(Lines()), Now(), Lines(), [c]) && error == old(error) && Connected())
      ensures !Buffered() && !Connected() ==> Now() == old(Now())
      decreases 1
    {
      hide WriteAt, Extends, LineFills, LineKept;
      if !writable {
        error := true;
        return EOF;
      }
      if Buffered() {
        var done, taken := Fwrite([c], 1, 1);
        if done != 1 {
          error := true;
          return EOF;
        }
        return c;
      }
      if fd == 1 || fd == 2 {
        ExtendsDirect(Now(), [c]);
        io.TerminalWrite([c]);
        return c;
      }
      if fd >= KERNEL_FD_FIRST {
        var done, taken := Fwrite([c], 1, 1);
        if done != 1 {
          error := true;
          return EOF;
        }
        return c;
      }
      error := true;
      return EOF;
    }

    /** fwrite: in every mode the same stream of bytes. A full count means that
        all of data is through, unless the last byte ended a line or filled the
        buffer in line mode: then the buffer may still hold that line. */
    method Fwrite(data: seq<byte>, size: nat, nmemb: nat) returns (r: nat, ghost consumed: nat)
      requires Valid() && |data| == Total(size, nmemb) && size <= SIZE_MAX && nmemb <= SIZE_MAX
      modifies this`writeBufferUsed, this`error, io, writeBuffer
      ensures Valid() && r <= nmemb && (data == [] ==> r == 0 && Now() == old(Now()) && error == old(error))
      ensures data != [] && !error ==> r == nmemb && Through(old(Now()), old(Lines()), Now(), Lines(), data)
      ensures data != [] && writable && Connected() && |data| <= SIZE_MAX && !io.failed ==>
                r == nmemb && Through(old(Now()), old(Lines()), Now(), Lines(), data) && error == old(error)
      ensures data != [] && r == nmemb ==> Through(old(Now()), old(Lines()), Now(), Lines(), data) || (old(AtLineEnd(data)) && !Lines())
      ensures |data| == 1 && old(LosesLine(data[0])) ==> r == nmemb && LineKept(old(Pending()), data[0], old(io.sent), old(Goes(writeBufferUsed + 1)))
      ensures writable && 0 < |data| <= SIZE_MAX && old(Fits(|data|)) ==> r == nmemb && unchanged(io)
      ensures data != [] && r < nmemb ==> error && (!writable || !Connected() || |data| > SIZE_MAX || io.failed)
      ensures consumed <= |data| && (size > 0 ==> r == consumed / size) && Taken(old(Now()), Now(), data[..consumed])
      ensures data != [] && (!writable || |data| > SIZE_MAX) ==> r == 0 && Now() == old(Now())
      ensures writable && !Buffered() && fd >= 3 && 0 < |data| <= SIZE_MAX ==>
                && consumed == old(io.Left(|data|)) && io.offset == old(io.offset) + consumed
                && Pending() == [] && io.sent == old(io.sent) + data[..consumed]
      decreases if Buffered() || fd >= KERNEL_FD_FIRST then 0 else 3
    {
      hide Through, Lines, Total, Whole, LineFills, LineKept, Taken;
      ghost var a := Now();
      consumed := 0;
      NoneTaken(a, data);
      NoData(size, nmemb);
      if size == 0 || nmemb == 0 {
        return 0, 0;
      }
      WholeIs(0, size);
      if !writable {
        error := true;
        return 0, 0;
      }
      TooMuch(size, nmemb);
      if nmemb > Whole(SIZE_MAX, size) {
        error := true;
        return 0, 0;
      }
      var ok: bool, done: nat;
      if Buffered() {
        ok, done := WriteBuffered(data);
        Elements(done, size, nmemb);
        WholeIs(done, size);
        if !ok {
          return Whole(done, size), done;
        }
        return nmemb, done;
      }
      if fd >= KERNEL_FD_FIRST {
        ok, done := WriteDescriptor(data);
        Elements(done, size, nmemb);
        WholeIs(done, size);
        assert a.sent + a.pending == a.sent && Now().sent + Now().pending == Now().sent;
        ExtendsTaken(a, Now(), data[..done]);
        if !ok {
          return Whole(done, size), done;
        }
        return nmemb, done;
      }
      r := WriteTerminal(data, size, nmemb);
      if Connected() {
        consumed := |data|;
        Elements(consumed, size, nmemb);
        WholeIs(consumed, size);
        AllTaken(a, old(Lines()), Now(), Lines(), data);
      }
    }

    /** setvbuf: what was pending leaves first, so a change of mode or buffer
        loses nothing; in line mode no newline is left waiting. */
    method Setvbuf(buffer: array?<byte>, mode: int, size: nat) returns (r: int)
      requires Valid() && size <= SIZE_MAX && (buffer != null ==> size <= buffer.Length)
      modifies this, io
      ensures Valid() && (r == 0 || r == -1) && (old(Lines()) ==> Lines())
      ensures r == 0 ==> Pending() == [] && Extends(old(Now()), Now(), []) && bufferingMode == mode && Lines()
      ensures r == 0 ==> (mode == 2 ==> !Buffered()) && (mode != 2 ==> Buffered() && writeBufferSize == size)
      ensures r == 0 && mode != IONBF && buffer != null ==> writeBuffer == buffer
      ensures writable == old(writable) && hasPushback == old(hasPushback)
      ensures r == -1 && !io.failed && Connected() ==> Extends(old(Now()), Now(), [])
      ensures mode != 0 && mode != 1 && mode != 2 ==> r == -1
      ensures old(Pending()) == [] ==> unchanged(io)
      ensures writable && old(Pending()) == [] && (mode == 0 || mode == 1) && buffer != null && size > 0 ==> r == 0
    {
      hide WriteAt, Extends;
      ghost var a := Now();
      ExtendsNothing(a);
      if !writable {
        return -1;
      }
      if mode != IOFBF && mode != IOLBF && mode != IONBF {
        return -1;
      }
      if mode != IONBF && size == 0 {
        return -1;
      }
      if writeBufferUsed != 0 {
        var ok := Flush();
        if !ok {
          return -1;
        }
      }
      var newBuffer: array?<byte> := null;
      var newBufferOwned := false;
      if mode == IOFBF || mode == IOLBF {
        if buffer != null {
          newBuffer := buffer;
        } else {
          var full: bool := *;
          if full {
            return -1;
          }
          newBuffer := new byte[size](_ => 0);
          newBufferOwned := true;
        }
      }
      bufferOwned := false;
      writeBuffer := newBuffer;
      writeBufferSize := if mode == IONBF then 0 else size;
      writeBufferUsed := 0;
      bufferingMode := mode;
      if newBufferOwned {
        bufferOwned := true;
      }
      return 0;
    }

    /** The position a program sees: what is pending counts as written, and a
        pushed-back character counts as not yet read. */
    ghost function Position(): int
      reads this, io, writeBuffer
    {
      LogicalPosition(Now()) - if hasPushback then 1 else 0
    }

    /** ftell: the logical position, as far as 32-bit arithmetic gives it. */
    method Ftell() returns (r: int)
      requires Valid()
      modifies this`error, io`failed
      ensures Valid() && (r == -1 ==> error)
      ensures r != -1 ==> 0 <= r <= 0x7FFF_FFFF && (r == Position() <==> LogicalPosition(Now()) <= SIZE_MAX)
      ensures r == -1 ==> fd < KERNEL_FD_FIRST || io.failed || LogicalPosition(Now()) > 0x7FFF_FFFF || Position() < 0
      ensures fd >= KERNEL_FD_FIRST && !io.failed ==> r == Told(io.offset, writeBufferUsed, hasPushback)
    {
      hide WriteAt, Wrapped;
      Counted();
      if fd < KERNEL_FD_FIRST {
        error := true;
        return -1;
      }
      var ok: bool, pos: nat;
      ok, pos := Tell();
      if !ok {
        error := true;
        return -1;
      }
      ToldRight(pos, writeBufferUsed, hasPushback);
      if writeBufferUsed > Wrapped(LONG_MAX - pos) {
        error := true;
        return -1;
      }
      pos := Wrapped(pos + writeBufferUsed);
      if hasPushback {
        if pos == 0 {
          error := true;
          return -1;
        }
        pos := pos - 1;
      }
      if pos > LONG_MAX {
        error := true;
        return -1;
      }
      return pos;
    }

    /** kernel_fd_seek by nothing from here. */
    method Tell() returns (ok: bool, pos: nat)
      requires Valid() && fd >= KERNEL_FD_FIRST
      modifies io`failed
      ensures ok ==> pos == io.offset && io.failed == old(io.failed)
      ensures !ok ==> io.failed
    {
      var broken: bool := *;
      if broken {
        io.failed := true;
        return false, 0;
      }
      return true, io.offset;
    }

    /** Where fseek should lead. */
    ghost function Destination(distance: int, whence: int): int
      reads this, io, writeBuffer
    {
      distance + if whence == SEEK_SET then 0 else if whence == SEEK_CUR then Position() else |LogicalContents(Now())|
    }

    /** fseek: pending output goes to the old position first, so the contents
        the program sees do not change and the new position is counted from the
        position it saw. */
    method Fseek(distance: int, whence: int) returns (r: int)
      requires Valid()
      modifies this`error, this`writeBufferUsed, this`hasPushback, this`pushback, this`eof, io
      ensures Valid() && (r == 0 || r == -1)
      ensures r == 0 ==> Pending() == [] && !hasPushback && !eof && io.sent == old(io.sent + Pending())
      ensures r == 0 ==> LogicalContents(Now()) == old(LogicalContents(Now())) && Position() == old(Destination(distance, whence))
      ensures r == -1 ==> fd < KERNEL_FD_FIRST || whence < SEEK_SET || whence > SEEK_END || io.failed
                          || !(0 <= old(Destination(distance, whence)) <= SIZE_MAX)
      ensures r == -1 && !io.failed ==> Extends(old(Now()), Now(), [])
    {
      hide WriteAt, Extends;
      ghost var a := Now();
      ExtendsNothing(a);
      NoWrite(LogicalContents(a), LogicalPosition(a));
      if fd < KERNEL_FD_FIRST {
        error := true;
        return -1;
      }
      if whence != SEEK_SET && whence != SEEK_CUR && whence != SEEK_END {
        error := true;
        return -1;
      }
      var kernelOffset := distance;
      if whence == SEEK_CUR && hasPushback {
        kernelOffset := kernelOffset - 1;
      }
      var ok: bool, newOffset: nat;
      ok := Settle();
      if !ok {
        return -1;
      }
      Moved(a, Now());
      ok, newOffset := io.Seek(kernelOffset, whence);
      if !ok {
        error := true;
        return -1;
      }
      NoWrite(io.contents, io.offset);
      hasPushback, pushback, eof := false, 0, false;
      return 0;
    }

    /** The flush before repositioning. */
    method Settle() returns (ok: bool)
      requires Valid() && fd >= KERNEL_FD_FIRST
      modifies this`error, this`writeBufferUsed, io
      ensures Valid() && (!ok ==> io.failed)
      ensures ok ==> Pending() == [] && io.contents == old(LogicalContents(Now())) && io.offset == old(LogicalPosition(Now()))
      ensures ok ==> io.sent == old(io.sent + Pending()) && io.failed == old(io.failed)
    {
      hide WriteAt, Extends;
      ghost var a := Now();
      ExtendsNothing(a);
      if writable && writeBufferUsed != 0 {
        ok := Flush();
        if !ok {
          return;
        }
      }
      Settled(a, Now());
      ok := true;
    }

    lemma Counted()
      requires Valid()
      ensures |Pending()| == writeBufferUsed <= writeBufferSize
    {
    }
  }

  /** How many bytes wait in a buffer in line mode after one more byte. */
  function LineFill(used: nat, size: nat, c: byte): (fill: nat) {
    var filled := (if used == size then 0 else used) + 1;
    if c == NEWLINE || filled == size then 0 else filled
  }

  /** And after a piece of data; 0 means that the last byte ended a line or
      filled the buffer up. */
  function LineFills(used: nat, size: nat, data: seq<byte>): (fill: nat) {
    if data == [] then used
    else LineFill(LineFills(used, size, data[..|data| - 1]), size, data[|data| - 1])
  }

  lemma LineFillsNext(used: nat, size: nat, data: seq<byte>, n: nat)
    requires n < |data|
    ensures LineFills(used, size, data[..n + 1]) == LineFill(LineFills(used, size, data[..n]), size, data[n])
  {
    assert data[..n + 1][..n] == data[..n];
  }

  /** size_t arithmetic. */
  function Wrapped(x: int): nat {
    x % 0x1_0000_0000
  }

  lemma WrappedIs(x: int)
    requires -0x1_0000_0000 <= x < 0x2_0000_0000
    ensures Wrapped(x) == if x < 0 then x + 0x1_0000_0000 else if x < 0x1_0000_0000 then x else x - 0x1_0000_0000
  {
  }

  /** The arithmetic of ftell; -1 for its refusals. */
  function Told(offset: nat, used: nat, pushedBack: bool): int {
    var pos := Wrapped(offset + used);
    if used > Wrapped(LONG_MAX - offset) || (pushedBack && pos == 0) then -1
    else
      var result := if pushedBack then pos - 1 else pos;
      if result > LONG_MAX then -1 else result
  }

  /** An answer is the logical position exactly when descriptor offset and
      pending bytes together stay below 2^32. */
  lemma ToldRight(offset: nat, used: nat, pushedBack: bool)
    requires offset <= SIZE_MAX && used <= SIZE_MAX
    ensures Told(offset, used, pushedBack) != -1 ==>
              (Told(offset, used, pushedBack) == offset + used - (if pushedBack then 1 else 0) <==> offset + used <= SIZE_MAX)
    ensures Told(offset, used, pushedBack) == -1 ==> offset + used > LONG_MAX || (pushedBack && offset + used == 0)
  {
    WrappedIs(offset + used);
    WrappedIs(LONG_MAX - offset);
  }

  /** One pending byte after offset 2^32 - 1: the answer is 0. */
  lemma ToldWraps()
    ensures Told(SIZE_MAX, 1, false) == 0
  {
    hide Wrapped;
    WrappedIs(SIZE_MAX + 1);
    WrappedIs(LONG_MAX - SIZE_MAX);
  }

  lemma Moved(a: Account, b: Account)
    requires b.contents == LogicalContents(a) && b.offset == LogicalPosition(a) && b.pending == [] && b.sent == a.sent + a.pending
    ensures Extends(a, b, [])
  {
    NoWrite(b.contents, b.offset);
    assert b.sent + b.pending == a.sent + a.pending + [];
  }

  /** Nothing written, nothing pending: the channel has what the program saw. */
  lemma Settled(a: Account, b: Account)
    requires Extends(a, b, []) && b.pending == []
    ensures b.contents == LogicalContents(a) && b.offset == LogicalPosition(a) && b.sent == a.sent + a.pending
    ensures LogicalContents(b) == b.contents && LogicalPosition(b) == b.offset
  {
    hide WriteAt;
    NoWrite(b.contents, b.offset);
    NoWrite(LogicalContents(a), LogicalPosition(a));
    assert b.sent + b.pending == b.sent && a.sent + a.pending + [] == a.sent + a.pending;
  }

  /** Complete elements among so many bytes. */
  function Whole(bytes: nat, size: nat): nat {
    if size == 0 then 0 else bytes / size
  }

  function Total(size: nat, nmemb: nat): nat {
    size * nmemb
  }

  lemma MulNext(a: nat, b: nat)
    ensures (a + 1) * b == a * b + b
  {
  }

  lemma NoData(size: nat, nmemb: nat)
    ensures Total(size, nmemb) == 0 <==> size == 0 || nmemb == 0
  {
  }

  lemma TooMuch(size: nat, nmemb: nat)
    requires size > 0
    ensures nmemb > Whole(SIZE_MAX, size) <==> Total(size, nmemb) > SIZE_MAX
  {
    var q := SIZE_MAX / size;
    DivMod(size, SIZE_MAX);
    if nmemb > q {
      MulLess(q, nmemb, size);
    } else {
      MulMono(size, nmemb, q);
    }
  }

  lemma WholeIs(bytes: nat, size: nat)
    requires size > 0
    ensures Whole(bytes, size) == bytes / size && Whole(0, size) == 0
  {
  }

  lemma Elements(consumed: nat, size: nat, nmemb: nat)
    requires size > 0 && consumed <= Total(size, nmemb)
    ensures Whole(consumed, size) <= nmemb && (Whole(consumed, size) == nmemb <==> consumed == Total(size, nmemb))
  {
    DivMod(size, consumed);
    if nmemb < consumed / size {
      MulLess(nmemb, consumed / size, size);
    } else if consumed / size < nmemb {
      MulLess(consumed / size, nmemb, size);
    }
  }

  lemma ExtendsDirect(a: Account, data: seq<byte>)
    requires a.pending == []
    ensures Extends(a, Account(a.sent + data, WriteAt(a.contents, a.offset, data), a.offset + |data|, []), data)
  {
  }

  lemma NoneSent(a: Account)
    ensures a.sent + a.pending[..0] == a.sent
  {
  }

  lemma AllOf(s: seq<byte>)
    ensures s[..|s|] == s && s[|s|..] == []
  {
  }

  lemma ExtendsSame(a: Account, b: Account, c: Account, x: seq<byte>)
    requires Extends(b, c, [])
    ensures Extends(a, b, x) ==> Extends(a, c, x)
  {
    if Extends(a, b, x) {
      ExtendsTwice(a, b, c, x, []);
      assert x + [] == x;
    }
  }

  lemma ExtendsThen(a: Account, b: Account, c: Account, x: seq<byte>)
    requires Extends(a, b, []) && Extends(b, c, x)
    ensures Extends(a, c, x)
  {
    hide Extends;
    ExtendsTwice(a, b, c, [], x);
    assert [] + x == x;
  }

  /** The next k bytes of data are through. */
  lemma Onward(a: Account, b: Account, c: Account, data: seq<byte>, done: nat, k: nat)
    requires done + k <= |data| && Extends(a, b, data[..done]) && Extends(b, c, data[done..done + k])
    ensures Extends(a, c, data[..done + k])
  {
    hide Extends;
    ExtendsTwice(a, b, c, data[..done], data[done..done + k]);
    assert data[..done + k] == data[..done] + data[done..done + k];
  }

  /** A newline written in line mode to a device that refuses: fputc returns it,
      and it is still in the buffer. */
  method LineLost() returns (r: int, sent: seq<byte>, waiting: seq<byte>)
    ensures r == 10 && sent == [] && waiting == [10]
  {
    var io := new Channel([], 0, [Refuses]);
    var f := new File(KERNEL_FD_FIRST, io, false, true);
    var buffer := new byte[8](_ => 0);
    var done := f.Setvbuf(buffer, IOLBF, 8);
    assert f.Pending() == [];
    LineFillsNext(0, 8, [NEWLINE], 0);
    assert Leaves([Refuses], SIZE_MAX, 1) == 0;
    r := f.Fputc(NEWLINE);
    sent, waiting := io.sent, f.Pending();
  }

  lemma OneThenBoth()
    ensures Leaves([Takes(1), Refuses], SIZE_MAX, 2) == 1 && LeavesAgain([Takes(1), Refuses], SIZE_MAX, 2) == 2
  {
    hide Leaves, AnswersAfter;
    TakesOne([], SIZE_MAX, 2);
    assert [Takes(1), Refuses] + [] == [Takes(1), Refuses];
    AllLeave(SIZE_MAX - 1, 2);
  }

  lemma OnlyPending(a: Account, lines: bool, b: Account, lines': bool, data: seq<byte>)
    requires Through(a, lines, b, lines', data) && a.sent == a.pending == b.sent == []
    ensures b.pending == data
  {
    assert b.sent + b.pending == b.pending && a.sent + a.pending + data == data;
  }

  /** Two bytes, a device that takes one and then refuses, a failed flush and
      another: the first byte has been written twice. */
  method ByteRepeated() returns (first: bool, second: bool, sent: seq<byte>)
    ensures !first && second && sent == [65, 65, 66]
  {
    hide WriteAt, Leaves, LineFills, AnswersAfter, LeavesAgain, Through, Taken, LogicalContents, File.Lines, File.LosesLine, File.LineKept, File.AtLineEnd;
    var io := new Channel([], 0, [Takes(1), Refuses]);
    var f := new File(KERNEL_FD_FIRST, io, false, true);
    var buffer := new byte[8](_ => 0);
    var done := f.Setvbuf(buffer, IOFBF, 8);
    ghost var a, lines := f.Now(), f.Lines();
    var count, taken := f.Fwrite([65, 66], 1, 2);
    OnlyPending(a, lines, f.Now(), f.Lines(), [65, 66]);
    OneThenBoth();
    first, second := f.FlushTwice();
    sent := io.sent;
  }
}
