/** External commands as seen by the collector.  The host is a fixed table
    of command outcomes; every call is recorded in a log, so that the order
    and number of invocations (and therefore memoisation) can be stated. */
module Shell {
  import opened Wrappers

  /** `timeout <seconds> <command>`. */
  datatype Invocation = Invocation(command: string, seconds: nat)

  /** What the backtick call produced: whether `$CHILD_STATUS.success?`
      held, and the captured standard output. */
  datatype Outcome = Outcome(success: bool, stdout: string)

  datatype Shell = Shell(host: map<Invocation, Outcome>, log: seq<Invocation>)

  /** The default `timeout` of `shellout_with_timeout`. */
  const DefaultSeconds: nat := 2

  /** The text `shellout_with_timeout` hands back for `inv`, without the
      call being recorded.  A command the host does not know behaves as
      one that failed (the `timeout` wrapper exits non-zero). */
  function Captured(host: map<Invocation, Outcome>, inv: Invocation): (out: string)
    ensures inv !in host ==> out == ""
    ensures inv in host && !host[inv].success ==> out == ""
    ensures inv in host && host[inv].success ==> out == host[inv].stdout
  {
    if inv in host && host[inv].success then host[inv].stdout else ""
  }

  /** `shellout_with_timeout(command, seconds)`: runs the command once. */
  function Run(sh: Shell, inv: Invocation): (r: (string, Shell))
    ensures r.1 == sh.(log := sh.log + [inv])
    ensures r.0 == Captured(sh.host, inv)
  {
    (Captured(sh.host, inv), sh.(log := sh.log + [inv]))
  }

  /** Appending one invocation and then the rest is appending them all. */
  lemma AppendOne(log: seq<Invocation>, inv: Invocation, more: seq<Invocation>)
    ensures log + [inv] + more == log + ([inv] + more)
  {
  }

  /** Appends in a row are one append of their concatenation. */
  lemma AppendTwo(log: seq<Invocation>, a: seq<Invocation>, b: seq<Invocation>)
    ensures log + a + b == log + (a + b)
  {
  }

  lemma AppendThree(log: seq<Invocation>, a: seq<Invocation>, b: seq<Invocation>, c: seq<Invocation>)
    ensures log + a + b + c == log + (a + b + c)
  {
  }

  /** How many times `inv` was run. */
  function Count(log: seq<Invocation>, inv: Invocation): nat {
    if |log| == 0 then 0
    else Count(log[..|log| - 1], inv) + (if log[|log| - 1] == inv then 1 else 0)
  }

  lemma CountAppend(log: seq<Invocation>, more: seq<Invocation>, inv: Invocation)
    ensures Count(log + more, inv) == Count(log, inv) + Count(more, inv)
    decreases |more|
  {
    if |more| > 0 {
      assert (log + more)[..|log + more| - 1] == log + more[..|more| - 1];
      CountAppend(log, more[..|more| - 1], inv);
    } else {
      assert log + more == log;
    }
  }

  /** Runs `step` on each element in order, threading the shell and
      stopping at the first failure (a Ruby `each` whose block may raise).
      Each step runs the one command `cmd` names; `rel` is what every
      successful step on this host guarantees about its result. */
  function MapRun<A(!new), B>(step: (Shell, A) -> (Result<B>, Shell), cmd: A -> Invocation, rel: (A, B) -> bool,
                        sh: Shell, xs: seq<A>): (r: (Result<seq<B>>, Shell))
    requires forall s, x :: step(s, x).1 == s.(log := s.log + [cmd(x)])
    requires forall s: Shell, x :: s.host == sh.host && step(s, x).0.Success? ==> rel(x, step(s, x).0.value)
    ensures r.1.host == sh.host
    ensures r.0.Success? ==> |r.0.value| == |xs|
    ensures r.0.Success? ==> forall i :: 0 <= i < |xs| ==> rel(xs[i], r.0.value[i])
    ensures r.0.Success? ==> r.1.log == sh.log + Commands(cmd, xs)
    decreases |xs|
  {
    if |xs| == 0 then (Success([]), sh)
    else
      var (first, sh1) := step(sh, xs[0]);
      match first
      case Failure(e) => (Failure(e), sh1)
      case Success(y) =>
        assert sh1.host == sh.host && rel(xs[0], y);
        var (rest, sh2) := MapRun(step, cmd, rel, sh1, xs[1..]);
        match rest
        case Failure(e) => (Failure(e), sh2)
        case Success(ys) =>
          assert forall i :: 1 <= i < |xs| ==> xs[i] == xs[1..][i - 1];
          assert Commands(cmd, xs) == [cmd(xs[0])] + Commands(cmd, xs[1..]);
          AppendOne(sh.log, cmd(xs[0]), Commands(cmd, xs[1..]));
          (Success([y] + ys), sh2)
  }

  /** When every step on this host succeeds, the whole loop succeeds. */
  lemma {:induction false} MapRunSucceeds<A(!new), B>(step: (Shell, A) -> (Result<B>, Shell), cmd: A -> Invocation,
                                       rel: (A, B) -> bool, sh: Shell, xs: seq<A>)
    requires forall s, x :: step(s, x).1 == s.(log := s.log + [cmd(x)])
    requires forall s: Shell, x :: s.host == sh.host && step(s, x).0.Success? ==> rel(x, step(s, x).0.value)
    requires forall s: Shell, i :: s.host == sh.host && 0 <= i < |xs| ==> step(s, xs[i]).0.Success?
    ensures MapRun(step, cmd, rel, sh, xs).0.Success?
    decreases |xs|
  {
    if |xs| > 0 {
      var sh1 := step(sh, xs[0]).1;
      assert forall i :: 0 <= i < |xs[1..]| ==> xs[1..][i] == xs[i + 1];
      MapRunSucceeds(step, cmd, rel, sh1, xs[1..]);
    }
  }

  /** The commands `MapRun` issues for `xs`, in order. */
  function Commands<A>(cmd: A -> Invocation, xs: seq<A>): (invs: seq<Invocation>)
    ensures |invs| == |xs|
    ensures forall i :: 0 <= i < |xs| ==> invs[i] == cmd(xs[i])
    decreases |xs|
  {
    if |xs| == 0 then []
    else
      assert forall i :: 1 <= i < |xs| ==> xs[i] == xs[1..][i - 1];
      [cmd(xs[0])] + Commands(cmd, xs[1..])
  }
}
