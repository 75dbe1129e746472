/** The race between a handler and its deadline for one response (internal/middleware/timeout.go). Each method of
    the writer is one critical section of its mutex. */
module Timeout {
  type Bytes = seq<bv8>

  /** A call on a response writer. */
  datatype Call = Header(status: int) | Body(bytes: Bytes)

  /** `log` is what has reached the underlying writer. */
  datatype Writer = Writer(written: bool, timedOut: bool, log: seq<Call>)

  // A call the handler makes on the wrapping writer
  function Handled(w: Writer, c: Call): Writer {
    match c
    case Header(_) => if !w.written && !w.timedOut then w.(written := true, log := w.log + [c]) else w
    case Body(_) => if w.timedOut then w else w.(written := true, log := w.log + [c])
  }

  // The critical section of the deadline arm
  function Expired(w: Writer): Writer {
    if !w.written then w.(written := true, timedOut := true) else w
  }

  class TimeoutWriter {
    var written: bool
    var timedOut: bool
    var log: seq<Call>

    constructor ()
      ensures View() == Writer(false, false, [])
    {
      written, timedOut, log := false, false, [];
    }

    ghost function View(): Writer
      reads this
    {
      Writer(written, timedOut, log)
    }

    method WriteHeader(status: int)
      modifies this
      ensures View() == Handled(old(View()), Header(status))
    {
      if !written && !timedOut {
        written := true;
        log := log + [Header(status)];
      }
    }

    method Write(bytes: Bytes)
      modifies this
      ensures View() == Handled(old(View()), Body(bytes))
    {
      if !written && !timedOut {
        written := true;
      }
      if timedOut {
        return;
      }
      log := log + [Body(bytes)];
    }

    method Expire() returns (sendError: bool)
      modifies this
      ensures View() == Expired(old(View())) && sendError == old(!written)
    {
      sendError := !written;
      if sendError {
        written, timedOut := true, true;
      }
    }
  }

  // ----- the race -----

  /** How the middleware came to return: the handler finished, the deadline won, or the deadline came after the
      handler's first write. */
  datatype Arm = Finished | TimedOut | Late

  datatype Main = Selecting | Sending(k: nat) | Returned(how: Arm)

  /** The handler's calls are fixed in advance; `pc` of them are done. */
  datatype Sys = Sys(w: Writer, pc: nat, done: bool, main: Main)

  datatype Event = HandlerCall | HandlerReturn | DoneArm | DeadlineArm | ErrorCall

  const START := Sys(Writer(false, false, []), 0, false, Selecting)

  predicate Enabled(script: seq<Call>, error: seq<Call>, s: Sys, e: Event) {
    match e
    case HandlerCall => s.pc < |script| && !s.done
    case HandlerReturn => s.pc == |script| && !s.done
    case DoneArm => s.main.Selecting? && s.done
    case DeadlineArm => s.main.Selecting?
    case ErrorCall => s.main.Sending?
  }

  /** `error` are the calls that send the timeout error, made on the underlying writer outside the lock. */
  function Apply(script: seq<Call>, error: seq<Call>, s: Sys, e: Event): Sys
    requires Enabled(script, error, s, e)
  {
    match e
    case HandlerCall => s.(w := Handled(s.w, script[s.pc]), pc := s.pc + 1)
    case HandlerReturn => s.(done := true)
    case DoneArm => s.(main := Returned(if s.w.timedOut then TimedOut else Finished))
    case DeadlineArm => s.(w := Expired(s.w), main := if s.w.written then Returned(Late) else Sending(0))
    case ErrorCall =>
      var k := s.main.k;
      if k < |error| then s.(w := s.w.(log := s.w.log + [error[k]]), main := Sending(k + 1))
      else s.(main := Returned(TimedOut))
  }

  predicate Legal(script: seq<Call>, error: seq<Call>, s: Sys, es: seq<Event>)
    decreases |es|
  {
    es == [] || (Enabled(script, error, s, es[0]) && Legal(script, error, Apply(script, error, s, es[0]), es[1..]))
  }

  function Exec(script: seq<Call>, error: seq<Call>, s: Sys, es: seq<Event>): Sys
    requires Legal(script, error, s, es)
    decreases |es|
  {
    if es == [] then s else Exec(script, error, Apply(script, error, s, es[0]), es[1..])
  }

  // ----- what a client sees -----

  /** The calls of a script that count: every body, and a header only in front of everything else. */
  function Effective(script: seq<Call>): seq<Call> {
    if script == [] then []
    else
      var (init, last) := (script[..|script| - 1], script[|script| - 1]);
      if last.Body? || init == [] then Effective(init) + [last] else Effective(init)
  }

  function BodyOf(calls: seq<Call>): Bytes {
    if calls == [] then []
    else BodyOf(calls[..|calls| - 1]) + (if calls[|calls| - 1].Body? then calls[|calls| - 1].bytes else [])
  }

  function Headers(calls: seq<Call>): nat {
    if calls == [] then 0 else Headers(calls[..|calls| - 1]) + (if calls[|calls| - 1].Header? then 1 else 0)
  }

  datatype Response = Response(status: int, body: Bytes)

  /** A response writer commits its status at the first call, 200 unless that call sets another, and ignores every
      later status. */
  function Seen(calls: seq<Call>): Response {
    Response(if calls != [] && calls[0].Header? then calls[0].status else 200, BodyOf(calls))
  }

  lemma {:induction false} EffectiveSeen(script: seq<Call>)
    ensures Seen(Effective(script)) == Seen(script)
    ensures Headers(Effective(script)) <= 1
    ensures script != [] ==> Effective(script) != [] && Effective(script)[0] == script[0]
    ensures Headers(Effective(script)) == 1 ==> script[0].Header?
  {
    if script != [] {
      var init, last := script[..|script| - 1], script[|script| - 1];
      EffectiveSeen(init);
      if last.Body? || init == [] {
        assert Effective(script)[..|Effective(script)| - 1] == Effective(init);
      }
    }
  }

  // ----- one response, never mixed -----

  ghost predicate Inv(script: seq<Call>, error: seq<Call>, s: Sys) {
    && s.pc <= |script|
    && (s.done ==> s.pc == |script|)
    && (s.w.timedOut <==> s.main.Sending? || s.main == Returned(TimedOut))
    && (s.w.written <==> s.pc > 0 || s.w.timedOut)
    && (!s.w.timedOut ==> s.w.log == Effective(script[..s.pc]))
    && (s.main.Sending? ==> s.main.k <= |error| && s.w.log == error[..s.main.k])
    && (s.main == Returned(TimedOut) ==> s.w.log == error)
    && (s.main == Returned(Finished) ==> s.done)
    && (s.main == Returned(Late) ==> s.pc > 0)
  }

  lemma StepKeepsInv(script: seq<Call>, error: seq<Call>, s: Sys, e: Event)
    requires Inv(script, error, s) && Enabled(script, error, s, e)
    ensures Inv(script, error, Apply(script, error, s, e))
  {
    if e.HandlerCall? {
      assert script[..s.pc + 1][..s.pc] == script[..s.pc];
    } else if e.ErrorCall? && s.main.k < |error| {
      assert error[..s.main.k + 1] == error[..s.main.k] + [error[s.main.k]];
    }
  }

  lemma {:induction false} RunKeepsInv(script: seq<Call>, error: seq<Call>, s: Sys, es: seq<Event>)
    requires Inv(script, error, s) && Legal(script, error, s, es)
    ensures Inv(script, error, Exec(script, error, s, es))
    decreases |es|
  {
    if es != [] {
      StepKeepsInv(script, error, s, es[0]);
      RunKeepsInv(script, error, Apply(script, error, s, es[0]), es[1..]);
    }
  }

  /** At every point of every interleaving the calls that reached the client are either the handler's so far or a
      part of the timeout error, never both, and at most one of the handler's sets a status. When the middleware
      has returned, the response is the whole script, the whole error, or what the handler had sent. */
  lemma OneResponse(script: seq<Call>, error: seq<Call>, es: seq<Event>)
    requires Legal(script, error, START, es)
    ensures var s := Exec(script, error, START, es);
      && s.pc <= |script|
      && (!s.w.timedOut ==> s.w.log == Effective(script[..s.pc]) && Headers(s.w.log) <= 1)
      && (s.w.timedOut ==> s.w.log <= error)
      && (s.main == Returned(Finished) ==> !s.w.timedOut && Seen(s.w.log) == Seen(script))
      && (s.main == Returned(TimedOut) ==> s.w.log == error)
      && (s.main == Returned(Late) ==> s.pc > 0 && Seen(s.w.log) == Seen(script[..s.pc]))
  {
    RunKeepsInv(script, error, START, es);
    var s := Exec(script, error, START, es);
    EffectiveSeen(script[..s.pc]);
    assert s.done ==> script[..s.pc] == script;
  }

  /** The check for a timeout after the handler is done never finds one. */
  lemma DoneArmNeverTimedOut(script: seq<Call>, error: seq<Call>, es: seq<Event>)
    requires Legal(script, error, START, es)
    requires Enabled(script, error, Exec(script, error, START, es), DoneArm)
    ensures !Exec(script, error, START, es).w.timedOut
  {
    RunKeepsInv(script, error, START, es);
  }

  // ----- the deadline and the handler each get their way -----

  lemma More(script: seq<Call>, error: seq<Call>, s: Sys, e: Event, es: seq<Event>)
    requires Enabled(script, error, s, e) && Legal(script, error, Apply(script, error, s, e), es)
    ensures Legal(script, error, s, [e] + es)
    ensures Exec(script, error, s, [e] + es) == Exec(script, error, Apply(script, error, s, e), es)
  {
    assert ([e] + es)[1..] == es;
  }

  lemma Nothing(script: seq<Call>, error: seq<Call>, s: Sys)
    ensures Legal(script, error, s, []) && Exec(script, error, s, []) == s
  {
  }

  // What is left of the error can be sent.
  lemma {:induction false} ErrorSent(script: seq<Call>, error: seq<Call>, s: Sys) returns (es: seq<Event>)
    requires s.main.Sending? && s.main.k <= |error|
    ensures Legal(script, error, s, es) && Exec(script, error, s, es).main.Returned?
    decreases |error| - s.main.k
  {
    var t := Apply(script, error, s, ErrorCall);
    if s.main.k < |error| {
      es := ErrorSent(script, error, t);
    } else {
      es := [];
      Nothing(script, error, t);
    }
    More(script, error, s, ErrorCall, es);
    es := [ErrorCall] + es;
  }

  lemma {:induction false} StaysTimedOut(script: seq<Call>, error: seq<Call>, s: Sys, es: seq<Event>)
    requires Inv(script, error, s) && s.w.timedOut && Legal(script, error, s, es)
    ensures Exec(script, error, s, es).w.timedOut
    decreases |es|
  {
    if es != [] {
      StepKeepsInv(script, error, s, es[0]);
      StaysTimedOut(script, error, Apply(script, error, s, es[0]), es[1..]);
    }
  }

  /** The deadline can come in every run until the middleware returns. If the handler has called nothing yet, then
      whatever it does afterwards the client gets the timeout error and nothing else, and the middleware can return; if
      it has, the middleware returns at once with what was sent. */
  lemma DeadlineDecides(script: seq<Call>, error: seq<Call>, es: seq<Event>)
    requires Legal(script, error, START, es) && Exec(script, error, START, es).main.Selecting?
    ensures Enabled(script, error, Exec(script, error, START, es), DeadlineArm)
    ensures var s := Exec(script, error, START, es);
      var t := Apply(script, error, s, DeadlineArm);
      if s.pc > 0 then t.main == Returned(Late) && t.w.log == s.w.log
      else
        && (forall more :: Legal(script, error, t, more) && Exec(script, error, t, more).main.Returned? ==>
              Exec(script, error, t, more).main == Returned(TimedOut) && Exec(script, error, t, more).w.log == error)
        && (exists more :: Legal(script, error, t, more) && Exec(script, error, t, more).main.Returned?)
  {
    var s := Exec(script, error, START, es);
    var t := Apply(script, error, s, DeadlineArm);
    RunKeepsInv(script, error, START, es);
    StepKeepsInv(script, error, s, DeadlineArm);
    if s.pc == 0 {
      forall more | Legal(script, error, t, more) && Exec(script, error, t, more).main.Returned?
        ensures Exec(script, error, t, more).main == Returned(TimedOut) && Exec(script, error, t, more).w.log == error
      {
        StaysTimedOut(script, error, t, more);
        RunKeepsInv(script, error, t, more);
      }
      var more := ErrorSent(script, error, t);
    }
  }

  // The handler makes the calls it has left, returns, and the middleware sees it.
  lemma {:induction false} HandlerRuns(script: seq<Call>, error: seq<Call>, s: Sys) returns (es: seq<Event>)
    requires s.main.Selecting? && s.pc <= |script| && !s.w.timedOut
    ensures Legal(script, error, s, es) && Exec(script, error, s, es).main == Returned(Finished)
    decreases |script| - s.pc, !s.done
  {
    if s.done {
      Nothing(script, error, Apply(script, error, s, DoneArm));
      More(script, error, s, DoneArm, []);
      es := [DoneArm] + [];
    } else {
      var e := if s.pc < |script| then HandlerCall else HandlerReturn;
      es := HandlerRuns(script, error, Apply(script, error, s, e));
      More(script, error, s, e, es);
      es := [e] + es;
    }
  }

  /** And as long as the middleware selects the handler can finish, with its whole response sent. */
  lemma HandlerCanFinish(script: seq<Call>, error: seq<Call>, es: seq<Event>)
    requires Legal(script, error, START, es) && Exec(script, error, START, es).main.Selecting?
    ensures var s := Exec(script, error, START, es);
      exists more :: Legal(script, error, s, more) && Exec(script, error, s, more).main == Returned(Finished)
        && Seen(Exec(script, error, s, more).w.log) == Seen(script)
  {
    var s := Exec(script, error, START, es);
    RunKeepsInv(script, error, START, es);
    var more := HandlerRuns(script, error, s);
    RunKeepsInv(script, error, s, more);
    EffectiveSeen(script);
    assert script[..|script|] == script;
  }

  lemma {:induction false} BodyOfConcat(a: seq<Call>, b: seq<Call>)
    ensures BodyOf(a + b) == BodyOf(a) + BodyOf(b)
  {
    if b == [] {
      assert a + b == a;
    } else {
      assert (a + b)[..|a + b| - 1] == a + b[..|b| - 1];
      BodyOfConcat(a, b[..|b| - 1]);
    }
  }

  /** A deadline after the first write returns with part of a response: it is the handler's whole response exactly
      when the handler has no body left to write. */
  lemma LateIsComplete(script: seq<Call>, error: seq<Call>, es: seq<Event>)
    requires Legal(script, error, START, es)
    requires Exec(script, error, START, es).main == Returned(Late)
    ensures var s := Exec(script, error, START, es);
      s.pc <= |script| && (Seen(s.w.log) == Seen(script) <==> BodyOf(script[s.pc..]) == [])
  {
    OneResponse(script, error, es);
    var s := Exec(script, error, START, es);
    assert script == script[..s.pc] + script[s.pc..];
    BodyOfConcat(script[..s.pc], script[s.pc..]);
  }

  // The script's first call, then the deadline
  lemma LateRun(script: seq<Call>, error: seq<Call>)
    requires script != []
    ensures var es := [HandlerCall, DeadlineArm];
      && Legal(script, error, START, es)
      && Exec(script, error, START, es).main == Returned(Late) && Exec(script, error, START, es).pc == 1
  {
    var es := [HandlerCall, DeadlineArm];
    var s := Apply(script, error, START, HandlerCall);
    var t := Apply(script, error, s, DeadlineArm);
    assert es[1..] == [DeadlineArm] && es[1..][1..] == [];
    assert Legal(script, error, t, []) && Legal(script, error, s, es[1..]) && Exec(script, error, s, es[1..]) == t;
  }

  /** Whatever the timing, a handler's response is never cut short exactly when no body follows its first call. The
      common handler that sets a status and then writes can be cut between the two. */
  lemma NeverTruncatedExactly(script: seq<Call>, error: seq<Call>)
    ensures (forall es :: Legal(script, error, START, es) && Exec(script, error, START, es).main == Returned(Late) ==>
        Seen(Exec(script, error, START, es).w.log) == Seen(script))
      <==> script == [] || BodyOf(script[1..]) == []
  {
    hide Exec, Legal, Seen;
    if script == [] || BodyOf(script[1..]) == [] {
      forall es | Legal(script, error, START, es) && Exec(script, error, START, es).main == Returned(Late)
        ensures Seen(Exec(script, error, START, es).w.log) == Seen(script)
      {
        OneResponse(script, error, es);
        LateIsComplete(script, error, es);
        var pc := Exec(script, error, START, es).pc;
        assert script[1..] == script[1..pc] + script[pc..];
        BodyOfConcat(script[1..pc], script[pc..]);
      }
    } else {
      var es := [HandlerCall, DeadlineArm];
      LateRun(script, error);
      LateIsComplete(script, error, es);
      assert Seen(Exec(script, error, START, es).w.log) != Seen(script);
    }
  }

  /** That handler: a status, a body, and the deadline between them. */
  lemma LateTruncates(status: int, body: Bytes, error: seq<Call>)
    requires body != []
    ensures var (script, es) := ([Header(status), Body(body)], [HandlerCall, DeadlineArm]);
      && Legal(script, error, START, es)
      && Exec(script, error, START, es).main == Returned(Late)
      && Seen(Exec(script, error, START, es).w.log) != Seen(script)
  {
    var script, es := [Header(status), Body(body)], [HandlerCall, DeadlineArm];
    LateRun(script, error);
    LateIsComplete(script, error, es);
    assert script[1..] == [Body(body)];
    assert BodyOf([Body(body)]) == [] + body;
  }
}
