/**
 * errWriter (assetfs.go): an io.Writer wrapper that remembers the first
 * error of the writer it wraps and, from then on, answers every Write with
 * that error without passing anything on.  The wrapped writer is I/O: each
 * call says what it would answer, and the wrapper records the writes it
 * actually received.
 */
module ErrWriting {
  import opened Wrappers
  import opened Index

  /** An error value returned by the wrapped writer. */
  datatype WriteError = WriteError(msg: string)

  /** What one Write of the wrapped writer returns: a count and an error or nil. */
  datatype Reply = Reply(n: int, err: Option<WriteError>)

  /** One call of errWriter.Write: the bytes, and what the wrapped writer answers if it is called. */
  datatype Call = Call(p: Bytes, reply: Reply)

  /** The wrapper's `err` field, and the writes that reached the wrapped writer. */
  datatype Sticky = Sticky(err: Option<WriteError>, forwarded: seq<Bytes>)

  const Fresh := Sticky(None, [])

  /** One Write: the new state and what the call returns. */
  function Step(s: Sticky, c: Call): (Sticky, Reply)
  {
    if s.err.Some? then (s, Reply(0, s.err))
    else (Sticky(c.reply.err, s.forwarded + [c.p]), c.reply)
  }

  /** The state after `calls`, made in order on a fresh wrapper. */
  function Replay(calls: seq<Call>): Sticky
  {
    if calls == [] then Fresh else Step(Replay(calls[..|calls| - 1]), calls[|calls| - 1]).0
  }

  /** What each of `calls` returns: the `j`-th answers in the state the `j` calls before it left. */
  function Answers(calls: seq<Call>): (r: seq<Reply>)
    ensures |r| == |calls|
    ensures forall j :: 0 <= j < |calls| ==> r[j] == Step(Replay(calls[..j]), calls[j]).1
  {
    if calls == [] then []
    else
      var init := calls[..|calls| - 1];
      assert forall j :: 0 <= j < |init| ==> init[..j] == calls[..j] && init[j] == calls[j];
      Answers(init) + [Step(Replay(init), calls[|calls| - 1]).1]
  }

  /** The first error the wrapped writer answers, read from the front. */
  function FirstFailure(calls: seq<Call>): Option<WriteError>
  {
    if calls == [] then None
    else if calls[0].reply.err.Some? then calls[0].reply.err
    else FirstFailure(calls[1..])
  }

  /** The calls up to and including the first that fails. */
  function UpToFailure(calls: seq<Call>): seq<Call>
  {
    if calls == [] then []
    else if calls[0].reply.err.Some? then [calls[0]]
    else [calls[0]] + UpToFailure(calls[1..])
  }

  function Payloads(calls: seq<Call>): seq<Bytes>
  {
    if calls == [] then [] else [calls[0].p] + Payloads(calls[1..])
  }

  lemma {:induction false} PayloadsAppend(calls: seq<Call>, c: Call)
    ensures Payloads(calls + [c]) == Payloads(calls) + [c.p]
  {
    if calls != [] {
      assert (calls + [c])[1..] == calls[1..] + [c];
      PayloadsAppend(calls[1..], c);
    }
  }

  /** Adding a call after the first failure changes neither the first failure nor the calls up to it. */
  lemma {:induction false} FailureAppend(calls: seq<Call>, c: Call)
    ensures FirstFailure(calls + [c]) == if FirstFailure(calls).Some? then FirstFailure(calls) else c.reply.err
    ensures UpToFailure(calls + [c]) == if FirstFailure(calls).Some? then UpToFailure(calls) else calls + [c]
  {
    if calls != [] {
      assert (calls + [c])[1..] == calls[1..] + [c];
      FailureAppend(calls[1..], c);
      if calls[0].reply.err.None? {
        assert [calls[0]] + (calls[1..] + [c]) == calls + [c];
        assert [calls[0]] + calls[1..] == calls;
      }
    }
  }

  /** Without a failure, every call reached the wrapped writer. */
  lemma {:induction false} NoFailureUpToAll(calls: seq<Call>)
    requires FirstFailure(calls).None?
    ensures UpToFailure(calls) == calls
  {
    if calls != [] {
      NoFailureUpToAll(calls[1..]);
      assert [calls[0]] + calls[1..] == calls;
    }
  }

  /**
   * The wrapper's `err` is the first error the wrapped writer answered, or
   * nil; the wrapped writer received exactly the calls up to and including
   * that failure.
   */
  lemma {:induction false} ReplayIsFirstFailure(calls: seq<Call>)
    ensures Replay(calls).err == FirstFailure(calls)
    ensures Replay(calls).forwarded == Payloads(UpToFailure(calls))
  {
    if calls != [] {
      var init := calls[..|calls| - 1];
      var c := calls[|calls| - 1];
      assert init + [c] == calls;
      ReplayIsFirstFailure(init);
      FailureAppend(init, c);
      if FirstFailure(init).None? {
        NoFailureUpToAll(init);
      }
      PayloadsAppend(init, c);
    }
  }

  /** Once a Write has failed, later Writes leave the state alone. */
  lemma {:induction false} StuckReplay(calls: seq<Call>, more: seq<Call>)
    requires Replay(calls).err.Some?
    ensures Replay(calls + more) == Replay(calls)
  {
    if more != [] {
      var init := more[..|more| - 1];
      assert (calls + more)[..|calls + more| - 1] == calls + init;
      assert (calls + more)[|calls + more| - 1] == more[|more| - 1];
      StuckReplay(calls, init);
      assert Replay(calls + more) == Step(Replay(calls + init), more[|more| - 1]).0;
    } else {
      assert calls + more == calls;
    }
  }

  /** Once a Write has failed, every later Write returns 0 and that first error. */
  lemma {:induction false} StuckAnswers(calls: seq<Call>, more: seq<Call>)
    requires Replay(calls).err.Some?
    ensures forall j :: |calls| <= j < |calls + more| ==> Answers(calls + more)[j] == Reply(0, Replay(calls).err)
  {
    if more != [] {
      var init := more[..|more| - 1];
      assert (calls + more)[..|calls + more| - 1] == calls + init;
      StuckAnswers(calls, init);
      StuckReplay(calls, init);
    }
  }

  class ErrWriter {
    var err: Option<WriteError>
    /** The wrapped io.Writer, as the sequence of writes it received. */
    var forwarded: seq<Bytes>
    ghost var history: seq<Call>

    ghost predicate Valid()
      reads this
    {
      Sticky(err, forwarded) == Replay(history)
    }

    /** ErrWriter(w): a wrapper with no error yet. */
    constructor ()
      ensures Valid() && history == [] && err == None && forwarded == []
    {
      err := None;
      forwarded := [];
      history := [];
    }

    /** Err: the first error the wrapped writer answered, or nil. */
    function Err(): (e: Option<WriteError>)
      reads this
      requires Valid()
      ensures e == FirstFailure(history)
    {
      ReplayIsFirstFailure(history);
      err
    }

    /**
     * Write: after a failure, return 0 and the stored error without calling
     * the wrapped writer; otherwise pass `p` on, return its answer, and keep
     * its error if it has one.
     */
    method Write(p: Bytes, reply: Reply) returns (n: int, e: Option<WriteError>)
      requires Valid()
      modifies this
      ensures Valid() && history == old(history) + [Call(p, reply)]
      ensures (Sticky(err, forwarded), Reply(n, e)) == Step(old(Sticky(err, forwarded)), Call(p, reply))
      ensures old(err).Some? ==> n == 0 && e == old(err) && err == old(err) && forwarded == old(forwarded)
      ensures old(err).None? ==> n == reply.n && e == reply.err && err == reply.err && forwarded == old(forwarded) + [p]
    {
      assert (history + [Call(p, reply)])[..|history|] == history;
      if err.Some? {
        n, e := 0, err;
      } else {
        n, e := reply.n, reply.err;
        forwarded := forwarded + [p];
        if e.Some? {
          err := e;
        }
      }
      history := history + [Call(p, reply)];
    }
  }
}
