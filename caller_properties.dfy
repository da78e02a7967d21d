/**
  Properties of the release dispatch, proved about the specification functions of module
  Caller (HeaderStep for one release step, Run for the loop over the accepter tags).
 */
module CallerProperties {
  import opened Wrappers
  import InputReader
  import opened OutputFormatter
  import opened Caller

  /** How many times the tag "Header" occurs in `accepter`. */
  function Occurrences(accepter: seq<string>): nat
  {
    multiset(accepter)[HeaderTag]
  }

  /** Some release step among the first `n` wrote the failure status. */
  ghost predicate SomeStepRejected(input: InputReader.SDC, env: nat -> Effects, n: nat)
  {
    exists k :: 0 <= k < n && HeaderStep(input, env(k)).rejected
  }

  lemma LastSplit(accepter: seq<string>)
    requires accepter != []
    ensures accepter == accepter[..|accepter| - 1] + [accepter[|accepter| - 1]]
    ensures Occurrences(accepter) ==
      Occurrences(accepter[..|accepter| - 1]) + if accepter[|accepter| - 1] == HeaderTag then 1 else 0
  {
    var n := |accepter|;
    assert accepter == accepter[..n - 1] + [accepter[n - 1]];
    assert multiset(accepter) == multiset(accepter[..n - 1]) + multiset{accepter[n - 1]};
  }

  /** The loop runs exactly one release step per "Header" tag. */
  lemma {:induction false} RunStepsCount(input: InputReader.SDC, accepter: seq<string>, env: nat -> Effects, init: UpdateStatus)
    ensures Run(input, accepter, env, init).steps == Occurrences(accepter)
    decreases |accepter|
  {
    if accepter != [] {
      RunStepsCount(input, accepter[..|accepter| - 1], env, init);
      LastSplit(accepter);
    }
  }

  /** Without a "Header" tag nothing happens: no Header, no envelope, the status untouched. */
  lemma {:induction false} RunWithoutHeaderTag(input: InputReader.SDC, accepter: seq<string>, env: nat -> Effects, init: UpdateStatus)
    requires HeaderTag !in accepter
    ensures Run(input, accepter, env, init) == RunState(None, init, [], 0)
    decreases |accepter|
  {
    if accepter != [] {
      var n := |accepter|;
      assert accepter[n - 1] in accepter;
      assert forall t :: t in accepter[..n - 1] ==> t in accepter;
      RunWithoutHeaderTag(input, accepter[..n - 1], env, init);
    }
  }

  /**
    The Message's Header is the result of the step run for the LAST "Header" tag, at index j;
    that step is the one numbered by how many "Header" tags come before j.
   */
  lemma {:induction false} RunHeaderIsLast(input: InputReader.SDC, accepter: seq<string>, env: nat -> Effects, init: UpdateStatus, j: nat)
    requires j < |accepter| && accepter[j] == HeaderTag
    requires forall k :: j < k < |accepter| ==> accepter[k] != HeaderTag
    ensures Run(input, accepter, env, init).header == HeaderStep(input, env(Occurrences(accepter[..j]))).header
    decreases |accepter|
  {
    var n := |accepter|;
    if j == n - 1 {
      RunStepsCount(input, accepter[..n - 1], env, init);
    } else {
      assert accepter[..n - 1][..j] == accepter[..j];
      RunHeaderIsLast(input, accepter[..n - 1], env, init, j);
    }
  }

  /** A Header reaches the Message only if some step's reply classified as success, and it is
      then the read Header with only its release flag replaced. */
  lemma {:induction false} RunHeaderOnlyOnSuccess(input: InputReader.SDC, accepter: seq<string>, env: nat -> Effects, init: UpdateStatus)
    ensures var r := Run(input, accepter, env, init);
      r.header.Some? ==>
        exists k :: 0 <= k < r.steps && env(k).read.Some? && env(k).transport.Delivered?
          && CheckResult(env(k).transport.reply)
          && r.header.value == Stamped(env(k).read.value, input)
    decreases |accepter|
  {
    if accepter != [] {
      var n := |accepter|;
      var prev := Run(input, accepter[..n - 1], env, init);
      RunHeaderOnlyOnSuccess(input, accepter[..n - 1], env, init);
      if accepter[n - 1] == HeaderTag {
        var o := HeaderStep(input, env(prev.steps));
        if o.header.Some? {
          var k := prev.steps;
          assert env(k).read.Some? && o.header.value == Stamped(env(k).read.value, input);
        }
      }
    }
  }

  /** The output status ends as the failure status exactly when some step was rejected, and is
      left as it was otherwise. */
  lemma {:induction false} RunStatus(input: InputReader.SDC, accepter: seq<string>, env: nat -> Effects, init: UpdateStatus)
    ensures var r := Run(input, accepter, env, init);
      r.status == if SomeStepRejected(input, env, r.steps) then RejectedStatus else init
    decreases |accepter|
  {
    if accepter != [] {
      var n := |accepter|;
      var prev := Run(input, accepter[..n - 1], env, init);
      RunStatus(input, accepter[..n - 1], env, init);
      if accepter[n - 1] == HeaderTag {
        var o := HeaderStep(input, env(prev.steps));
        if o.rejected {
          assert SomeStepRejected(input, env, prev.steps + 1) by {
            assert HeaderStep(input, env(prev.steps)).rejected;
          }
        } else if SomeStepRejected(input, env, prev.steps + 1) {
          var k :| 0 <= k < prev.steps + 1 && HeaderStep(input, env(k)).rejected;
          assert k < prev.steps;
          assert SomeStepRejected(input, env, prev.steps);
        }
      }
    }
  }

  /** The status fields only ever change to "failed": SQLUpdateResult is never set to true. */
  lemma RunNeverSetsSuccess(input: InputReader.SDC, accepter: seq<string>, env: nat -> Effects, init: UpdateStatus)
    ensures var s := Run(input, accepter, env, init).status;
      && (s == init || s == UpdateStatus(Some(false), "Header Data cannot release"))
      && (s.sqlUpdateResult == Some(true) ==> init.sqlUpdateResult == Some(true))
  {
    RunStatus(input, accepter, env, init);
  }

  /** The accepter list with every tag other than "Header" dropped. */
  function HeaderTagsOnly(accepter: seq<string>): seq<string>
  {
    seq(Occurrences(accepter), _ => HeaderTag)
  }

  /** Tags other than "Header" have no effect: running only the "Header" tags gives the same
      Header, status, envelopes and step count. */
  lemma {:induction false} RunIgnoresOtherTags(input: InputReader.SDC, accepter: seq<string>, env: nat -> Effects, init: UpdateStatus)
    ensures Run(input, accepter, env, init) == Run(input, HeaderTagsOnly(accepter), env, init)
    decreases |accepter|
  {
    if accepter != [] {
      var n := |accepter|;
      RunIgnoresOtherTags(input, accepter[..n - 1], env, init);
      LastSplit(accepter);
      var before := HeaderTagsOnly(accepter[..n - 1]);
      if accepter[n - 1] == HeaderTag {
        assert HeaderTagsOnly(accepter)[..|HeaderTagsOnly(accepter)| - 1] == before;
      } else {
        assert HeaderTagsOnly(accepter) == before;
      }
    }
  }

  /** How many of the first `n` release steps found a Header on their read. */
  function FoundReads(env: nat -> Effects, n: nat): nat
  {
    if n == 0 then 0 else FoundReads(env, n - 1) + if env(n - 1).read.Some? then 1 else 0
  }

  /** Every envelope sent names the function "ArticleHeader", carries the request's session id
      and the request's release flag, and exactly one is sent per step whose read found a Header. */
  lemma {:induction false} RunEnvelopes(input: InputReader.SDC, accepter: seq<string>, env: nat -> Effects, init: UpdateStatus)
    ensures var r := Run(input, accepter, env, init);
      && |r.sent| == FoundReads(env, r.steps)
      && forall e :: e in r.sent ==>
           && e.functionName == "ArticleHeader"
           && e.runtimeSessionID == input.runtimeSessionID
           && e.message.isReleaseled == input.article.isReleaseled
    decreases |accepter|
  {
    if accepter != [] {
      RunEnvelopes(input, accepter[..|accepter| - 1], env, init);
    }
  }

  /** Re-release is safe: with the same request, a second release whose re-read returns either
      the original Header or the one the first release produced, and whose reply is any success
      reply, returns the same Header as the first. */
  lemma ReleaseIdempotent(input: InputReader.SDC, read: Header, reread: Header, first: Reply, second: Reply)
    requires CheckResult(first) && CheckResult(second)
    requires reread == read || reread == Stamped(read, input)
    ensures var once := HeaderStep(input, Effects(Some(read), Delivered(first)));
      && once.header.Some?
      && HeaderStep(input, Effects(Some(reread), Delivered(second))).header == once.header
  {
  }
}
