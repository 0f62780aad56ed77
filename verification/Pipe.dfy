/**
  The ring buffer of a pipe, proved against a queue of bytes, and the blocking
  write on top of it.
 */
module Pipe {
  const PIPE_BUF: nat := 4096
  const CHUNK: nat := 512

  function Min(a: nat, b: nat): nat { if a < b then a else b }

  /** Position `i` places behind `tail`, wrapping around. */
  function At(tail: nat, i: nat): nat { (tail + i) % PIPE_BUF }

  /** The `count` bytes of `buf` from `tail` on. */
  function RingBytes(buf: seq<bv8>, tail: nat, count: nat): (r: seq<bv8>)
    requires |buf| == PIPE_BUF && tail < PIPE_BUF
    ensures |r| == count
  {
    seq(count, (i: nat) => buf[At(tail, i)])
  }

  lemma AtStep(tail: nat, i: nat)
    requires tail < PIPE_BUF
    ensures At(At(tail, 1), i) == At(tail, i + 1)
  {
  }

  lemma AtDistinct(tail: nat, i: nat, j: nat)
    requires tail < PIPE_BUF && i < j < PIPE_BUF
    ensures At(tail, i) != At(tail, j)
  {
  }

  /** Taking a byte leaves the head where it is. */
  lemma TailStep(tail: nat, count: nat)
    requires tail < PIPE_BUF && count > 0
    ensures At(At(tail, 1), count - 1) == At(tail, count) && At(tail, 1) < PIPE_BUF
  {
  }

  lemma HeadStep(tail: nat, count: nat)
    requires tail < PIPE_BUF
    ensures At(At(tail, count), 1) == At(tail, count + 1) && At(tail, count) < PIPE_BUF
  {
  }

  lemma TakeOne(buf: seq<bv8>, tail: nat, count: nat)
    requires |buf| == PIPE_BUF && tail < PIPE_BUF && 0 < count <= PIPE_BUF
    ensures RingBytes(buf, tail, count)[0] == buf[tail]
    ensures RingBytes(buf, At(tail, 1), count - 1) == RingBytes(buf, tail, count)[1..]
  {
    var r, q := RingBytes(buf, At(tail, 1), count - 1), RingBytes(buf, tail, count);
    forall i | 0 <= i < count - 1
      ensures r[i] == q[1..][i]
    {
      AtStep(tail, i);
    }
  }

  lemma PutOne(buf: seq<bv8>, tail: nat, count: nat, b: bv8)
    requires |buf| == PIPE_BUF && tail < PIPE_BUF && count < PIPE_BUF
    ensures RingBytes(buf[At(tail, count) := b], tail, count + 1) == RingBytes(buf, tail, count) + [b]
  {
    var r, q := RingBytes(buf[At(tail, count) := b], tail, count + 1), RingBytes(buf, tail, count);
    forall i | 0 <= i < count
      ensures r[i] == q[i]
    {
      AtDistinct(tail, i, count);
    }
  }

  /** One more byte at the front of `o` replaced by that of `q`. */
  lemma Filled(q: seq<bv8>, o: seq<bv8>, k: nat)
    requires k < |q| && k < |o|
    ensures (q[..k] + o[k..])[k := q[k]] == q[..k + 1] + o[k + 1..]
    ensures q[..k + 1] == q[..k] + [q[k]] && q[k..][0] == q[k] && q[k..][1..] == q[k + 1..]
  {
  }

  /** What others do to the pipe while a writer is blocked: reads, writes, and how many readers are left. */
  datatype Others = Others(drained: nat, added: seq<bv8>, readers: nat)

  /** `Pending` is a writer still blocked when the observed schedule ends. */
  datatype WriteResult = Written(n: nat) | BrokenPipe | BadAddress | Pending

  /** The queue once the oldest bytes were read and as many of the added ones as fit were written. */
  function AfterOthers(q: seq<bv8>, o: Others): seq<bv8> {
    var rest := q[Min(o.drained, |q|)..];
    rest + if |rest| > PIPE_BUF then [] else o.added[..Min(|o.added|, PIPE_BUF - |rest|)]
  }

  /** The readers left after the first `step` of the others' turns. */
  function ReadersAfter(readers: nat, schedule: seq<Others>, step: nat): nat
    requires step <= |schedule|
  {
    if step == 0 then readers else schedule[step - 1].readers
  }

  /** Readers were there before each of the first `turns` turns. */
  ghost predicate ReadThroughout(readers: nat, schedule: seq<Others>, turns: nat) {
    turns <= |schedule| && forall k :: 0 <= k < turns ==> ReadersAfter(readers, schedule, k) > 0
  }

  lemma ReadOnceMore(readers: nat, schedule: seq<Others>, step: nat)
    requires step < |schedule| && ReadThroughout(readers, schedule, step) && ReadersAfter(readers, schedule, step) > 0
    ensures ReadThroughout(readers, schedule, step + 1) && ReadersAfter(readers, schedule, step + 1) == schedule[step].readers
  {
  }

  lemma ReadAtFirst(readers: nat, schedule: seq<Others>)
    ensures ReadThroughout(readers, schedule, 0) && ReadersAfter(readers, schedule, 0) == readers
  {
  }

  /** `at` lists increasing positions, from `base` on, where `log` holds the bytes of `s`. */
  ghost predicate Embedded(s: seq<bv8>, log: seq<bv8>, at: seq<nat>, base: nat) {
    && |at| == |s|
    && (forall i :: 0 <= i < |at| ==> base <= at[i] < |log| && log[at[i]] == s[i])
    && (forall i, j :: 0 <= i < j < |at| ==> at[i] < at[j])
  }

  /** The `n` positions from `from` on. */
  function From(from: nat, n: nat): (s: seq<nat>)
    ensures |s| == n
  {
    seq(n, (i: nat) => from + i)
  }

  lemma EmbeddedNothing(log: seq<bv8>, base: nat)
    ensures Embedded([], log, [], base)
  {
  }

  lemma EmbeddedLater(s: seq<bv8>, log: seq<bv8>, log': seq<bv8>, at: seq<nat>, base: nat)
    requires Embedded(s, log, at, base) && log <= log'
    ensures Embedded(s, log', at, base)
  {
  }

  /** Another `n` bytes of `user` behind the log. */
  lemma EmbeddedAppend(user: seq<bv8>, done: nat, chunk: nat, n: nat, log: seq<bv8>, log': seq<bv8>, at: seq<nat>, base: nat)
    requires n <= chunk && done + chunk <= |user| && base <= |log| && Embedded(user[..done], log, at, base)
    requires log' == log + user[done..done + chunk][..n]
    ensures Embedded(user[..done + n], log', at + From(|log|, n), base) && log <= log'
    ensures user[..done + n] == user[..done] + user[done..done + chunk][..n]
  {
    var piece := user[done..done + chunk][..n];
    assert user[..done + n] == user[..done] + piece;
  }

  lemma PrefixChain(a: seq<bv8>, b: seq<bv8>, c: seq<bv8>)
    requires a <= b <= c
    ensures a <= c
  {
  }

  class Ring {
    const buf: array<bv8>
    var head: nat
    var tail: nat
    var count: nat
    ghost var accepted: seq<bv8>
    ghost var delivered: seq<bv8>

    function Queue(): seq<bv8>
      reads this, buf
      requires buf.Length == PIPE_BUF && tail < PIPE_BUF
    {
      RingBytes(buf[..], tail, count)
    }

    /** The bytes delivered so far, then those buffered, are the bytes accepted so far. */
    ghost predicate Valid()
      reads this, buf
    {
      && buf.Length == PIPE_BUF
      && tail < PIPE_BUF && count <= PIPE_BUF && head == At(tail, count)
      && accepted == delivered + Queue()
    }

    constructor ()
      ensures Valid() && fresh(buf) && Queue() == [] && accepted == []
    {
      buf := new bv8[PIPE_BUF](_ => 0);
      head, tail, count, accepted, delivered := 0, 0, 0, [], [];
    }

    /** The clearing of a recycled slot. */
    method Reset()
      requires buf.Length == PIPE_BUF
      modifies this, buf
      ensures Valid() && Queue() == [] && accepted == [] && delivered == []
    {
      forall i | 0 <= i < PIPE_BUF {
        buf[i] := 0;
      }
      head, tail, count, accepted, delivered := 0, 0, 0, [], [];
    }

    /** Takes the oldest byte. */
    method Take() returns (b: bv8)
      requires Valid() && count > 0
      modifies this`tail, this`count, this`delivered
      ensures Valid() && b == old(Queue())[0] && Queue() == old(Queue())[1..]
      ensures delivered == old(delivered) + [b]
    {
      hide RingBytes, At;
      TakeOne(buf[..], tail, count);
      TailStep(tail, count);
      b := buf[tail];
      delivered := delivered + [b];
      tail := At(tail, 1);
      count := count - 1;
    }

    /** Moves the oldest bytes to `out`, as many as there are and are asked for. */
    method Read(out: array<bv8>, n: nat) returns (done: nat)
      requires Valid() && n <= out.Length && out != buf
      modifies this`tail, this`count, this`delivered, out
      ensures Valid() && done == Min(n, |old(Queue())|)
      ensures out[..done] == old(Queue())[..done] && out[done..] == old(out[done..])
      ensures Queue() == old(Queue())[done..]
      ensures delivered == old(delivered) + out[..done]
    {
      hide RingBytes, At;
      done := 0;
      ghost var q, o := Queue(), out[..];
      while done < n && count > 0
        invariant 0 <= done <= n && done + count == |q| && Valid()
        invariant Queue() == q[done..]
        invariant out[..] == q[..done] + o[done..]
        invariant delivered == old(delivered) + q[..done]
      {
        ghost var before := out[..];
        Filled(q, o, done);
        var b := Take();
        out[done] := b;
        assert out[..] == before[done := q[done]];
        done := done + 1;
      }
      assert out[..done] == out[..][..done] && out[done..] == out[..][done..];
    }

    /** Appends bytes of `s`, as many as fit. */
    method Write(s: seq<bv8>) returns (done: nat)
      requires Valid()
      modifies this`head, this`count, this`accepted, buf
      ensures Valid() && done == Min(|s|, PIPE_BUF - |old(Queue())|)
      ensures Queue() == old(Queue()) + s[..done]
      ensures accepted == old(accepted) + s[..done]
    {
      hide RingBytes, At;
      done := 0;
      ghost var q := Queue();
      while done < |s| && count < PIPE_BUF
        invariant 0 <= done <= |s| && Valid() && count == |q| + done
        invariant Queue() == q + s[..done]
        invariant accepted == old(accepted) + s[..done]
      {
        PutOne(buf[..], tail, count, s[done]);
        assert s[..done + 1] == s[..done] + [s[done]];
        HeadStep(tail, count);
        ghost var before := buf[..];
        buf[head] := s[done];
        assert buf[..] == before[head := s[done]];
        accepted := accepted + [s[done]];
        done := done + 1;
        head := At(head, 1);
        count := count + 1;
      }
    }

    /** Others run while this task is blocked. */
    method RunOthers(o: Others)
      requires Valid()
      modifies this`head, this`tail, this`count, this`accepted, this`delivered, buf
      ensures Valid() && old(accepted) <= accepted && old(delivered) <= delivered
      ensures Queue() == AfterOthers(old(Queue()), o)
    {
      var out := new bv8[o.drained];
      var r := Read(out, o.drained);
      var w := Write(o.added);
    }

    /** One chunk of a write, or its first `n` bytes: they lie behind the first `done` ones in the stream accepted since `start`. */
    method WriteChunk(user: seq<bv8>, done: nat, chunk: nat, ghost start: seq<bv8>, ghost at: seq<nat>) returns (n: nat, ghost at': seq<nat>)
      requires Valid() && done + chunk <= |user| && start <= accepted && |at| == done && Embedded(user[..done], accepted, at, |start|)
      modifies this`head, this`count, this`accepted, buf
      ensures Valid() && start <= accepted && n == Min(chunk, PIPE_BUF - |old(Queue())|)
      ensures |at'| == done + n && Embedded(user[..done + n], accepted, at', |start|)
      ensures Queue() == old(Queue()) + user[done..done + n] && user[..done + n] == user[..done] + user[done..done + n]
    {
      hide Embedded, RingBytes, At;
      n := Write(user[done..done + chunk]);
      EmbeddedAppend(user, done, chunk, n, old(accepted), accepted, at, |start|);
      PrefixChain(start, old(accepted), accepted);
      at' := at + From(|old(accepted)|, n);
      assert user[done..done + chunk][..n] == user[done..done + n];
    }

    /** A blocked writer's turn of waiting: what it wrote stays in the stream. */
    method Block(o: Others, ghost start: seq<bv8>, ghost out: seq<bv8>, ghost written: seq<bv8>, ghost at: seq<nat>)
      requires Valid() && start <= accepted && out <= delivered && Embedded(written, accepted, at, |start|)
      modifies this`head, this`tail, this`count, this`accepted, this`delivered, buf
      ensures Valid() && start <= accepted && out <= delivered && Embedded(written, accepted, at, |start|)
      ensures Queue() == AfterOthers(old(Queue()), o)
    {
      hide Embedded, RingBytes, At, AfterOthers;
      RunOthers(o);
      EmbeddedLater(written, old(accepted), accepted, at, |start|);
      PrefixChain(start, old(accepted), accepted);
      PrefixChain(out, old(delivered), delivered);
    }

    /**
      The pipe branch of `write`: chunks of at most 512 bytes, blocking while the
      pipe is full. Whatever the others do in between, the bytes written so far lie
      in the accepted stream in order; all of them do when the call reports success,
      and a broken pipe is reported only when no reader is left. The first `readable`
      bytes of the buffer can be copied from user memory; a chunk that cannot is
      reported even when earlier ones were written. The call blocks, `turns` times, only
      while the pipe is full and has readers, so data that fits is written at once.
     */
    method SysWrite(user: seq<bv8>, readable: nat, readers: nat, schedule: seq<Others>)
      returns (r: WriteResult, ghost at: seq<nat>, ghost turns: nat)
      requires Valid()
      modifies this`head, this`tail, this`count, this`accepted, this`delivered, buf
      ensures Valid() && old(accepted) <= accepted && old(delivered) <= delivered
      ensures |at| <= |user| && Embedded(user[..|at|], accepted, at, |old(accepted)|)
      ensures r.Written? ==> r.n == |user| == |at|
      ensures at == [] || |at| <= readable
      ensures r == BadAddress <==> |at| < |user| && |at| + Min(512, |user| - |at|) > readable
      ensures turns <= |schedule| && ReadThroughout(readers, schedule, turns)
      ensures r == BrokenPipe ==> |Queue()| == 4096 && ReadersAfter(readers, schedule, turns) == 0
      ensures r == Pending ==> |Queue()| == 4096 && ReadersAfter(readers, schedule, turns) > 0 && turns == |schedule|
      ensures turns == 0 ==> Queue() == old(Queue()) + user[..|at|]
      ensures |old(Queue())| + |user| <= 4096 ==> turns == 0 && (r == BadAddress || r == Written(|user|))
      ensures user == [] ==> r == Written(0)
    {
      hide Embedded, RingBytes, At, AfterOthers, ReadersAfter, ReadThroughout;
      var done, left, step := 0, readers, 0;
      at, turns := [], 0;
      EmbeddedNothing(accepted, |accepted|);
      ReadAtFirst(readers, schedule);
      assert user[..0] == [];
      while done < |user|
        invariant 0 <= done <= |user| && step <= |schedule|
        invariant Valid() && old(accepted) <= accepted && old(delivered) <= delivered
        invariant |at| == done && (done == 0 || done <= readable) && Embedded(user[..done], accepted, at, |old(accepted)|)
        invariant turns == step && left == ReadersAfter(readers, schedule, step)
        invariant ReadThroughout(readers, schedule, step)
        invariant step == 0 ==> Queue() == old(Queue()) + user[..done]
        invariant step > 0 ==> |old(Queue())| + |user| > PIPE_BUF
        decreases |user| - done, |schedule| - step
      {
        var chunk := if |user| - done > CHUNK then CHUNK else |user| - done;
        if done + chunk > readable {
          return BadAddress, at, turns;
        }
        var n;
        n, at := WriteChunk(user, done, chunk, old(accepted), at);
        done := done + n;
        if n == 0 {
          if left == 0 {
            return BrokenPipe, at, turns;
          }
          if step == |schedule| {
            return Pending, at, turns;
          }
          Block(schedule[step], old(accepted), old(delivered), user[..done], at);
          ReadOnceMore(readers, schedule, step);
          left := schedule[step].readers;
          step, turns := step + 1, turns + 1;
        }
      }
      return Written(done), at, turns;
    }
  }
}
