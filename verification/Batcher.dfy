/** The batcher as a protocol of submitters and one worker (src/batcher.rs:83-105 and 126-236):
    every interleaving of their steps, for a worker that does not panic.  Time is left open: a
    collection may end whenever the queue has been seen empty. */
module Batcher {
  import opened Bits
  import opened Collections

  /** A job is named by its place among the successful sends. */
  type Job = nat
  type Bytes = seq<u8>

  datatype Config = Config(maxBatchSize: nat, queueDepth: nat)

  /** What the processor returns for a batch. */
  datatype Outcome = Responses(values: seq<Bytes>) | Failure(message: Bytes)

  datatype Reply = Success(response: Bytes) | WrongCount(got: nat, expected: nat) | Failed(message: Bytes)

  /** A processed batch. */
  datatype Batch = Batch(jobs: seq<Job>, outcome: Outcome)

  /** Where the worker is: waiting for a first job, filling a batch (and whether it has just seen the
      queue empty), inside the processor, sending the replies of the last batch, or finished. */
  datatype Worker =
    | Waiting
    | Collecting(jobs: seq<Job>, sawEmpty: bool)
    | Processing(jobs: seq<Job>)
    | Replying(sentReplies: nat)
    | Stopped

  datatype State = State(
    sent: seq<Bytes>,
    uncounted: set<Job>,
    queue: seq<Job>,
    closed: bool,
    worker: Worker,
    log: seq<Batch>,
    replies: map<Job, Reply>,
    accepted: nat,
    rejected: nat,
    completed: nat,
    failed: nat,
    batches: nat,
    maxBatchSeen: nat)

  /** A fresh batcher: nothing sent, nothing held, every counter zero. */
  predicate Initial(s: State) {
    && s.sent == [] && s.uncounted == {} && s.queue == [] && !s.closed && s.worker.Waiting?
    && s.log == [] && s.replies == map[]
    && s.accepted == 0 && s.rejected == 0 && s.completed == 0 && s.failed == 0 && s.batches == 0
      && s.maxBatchSeen == 0
  }

  datatype Action =
    | TrySend(request: Bytes)
    | Count(job: Job)
    | CloseHandles
    | TakeFirst
    | TakeNext
    | SeeEmpty
    | EndCollection
    | Process(outcome: Outcome)
    | SendReply
    | Stop

  predicate Enabled(c: Config, s: State, a: Action) {
    match a
    case TrySend(_) => !s.closed && !s.worker.Stopped?
    case Count(job) => job in s.uncounted
    case CloseHandles => s.uncounted == {}
    case TakeFirst => s.worker.Waiting? && s.queue != []
    case TakeNext => s.worker.Collecting? && |s.worker.jobs| < c.maxBatchSize && s.queue != []
    case SeeEmpty => s.worker.Collecting? && |s.worker.jobs| < c.maxBatchSize && s.queue == []
    case EndCollection => s.worker.Collecting? && (|s.worker.jobs| >= c.maxBatchSize || s.worker.sawEmpty)
    case Process(_) => s.worker.Processing?
    case SendReply => s.worker.Replying? && s.log != [] && s.worker.sentReplies < |s.log[|s.log| - 1].jobs|
    case Stop => s.worker.Waiting? && s.queue == [] && s.closed
  }

  /** The reply of the k-th job of a batch: its own response if the processor returned exactly one
      per job, otherwise the error of the whole batch. */
  function ReplyIn(b: Batch, k: nat): Reply
    requires k < |b.jobs|
  {
    match b.outcome
    case Responses(values) => if |values| == |b.jobs| then Success(values[k]) else WrongCount(|values|, |b.jobs|)
    case Failure(message) => Failed(message)
  }

  predicate Succeeded(b: Batch) {
    b.outcome.Responses? && |b.outcome.values| == |b.jobs|
  }

  function Apply(c: Config, s: State, a: Action): State
    requires Enabled(c, s, a)
  {
    match a
    case TrySend(request) =>
      if |s.queue| >= c.queueDepth then s.(rejected := s.rejected + 1)
      else s.(sent := s.sent + [request], uncounted := s.uncounted + {|s.sent|}, queue := s.queue + [|s.sent|])
    case Count(job) => s.(uncounted := s.uncounted - {job}, accepted := s.accepted + 1)
    case CloseHandles => s.(closed := true)
    case TakeFirst => s.(worker := Collecting([s.queue[0]], false), queue := s.queue[1..])
    case TakeNext => s.(worker := Collecting(s.worker.jobs + [s.queue[0]], false), queue := s.queue[1..])
    case SeeEmpty => s.(worker := Collecting(s.worker.jobs, true))
    case EndCollection =>
      s.(worker := Processing(s.worker.jobs), batches := s.batches + 1,
         maxBatchSeen := if s.maxBatchSeen < |s.worker.jobs| then |s.worker.jobs| else s.maxBatchSeen)
    case Process(outcome) =>
      var b, n := Batch(s.worker.jobs, outcome), |s.worker.jobs|;
      s.(worker := Replying(0), log := s.log + [b],
         completed := if Succeeded(b) then s.completed + n else s.completed,
         failed := if Succeeded(b) then s.failed else s.failed + n)
    case SendReply =>
      var b, k := s.log[|s.log| - 1], s.worker.sentReplies;
      s.(replies := s.replies[b.jobs[k] := ReplyIn(b, k)],
         worker := if k + 1 == |b.jobs| then Waiting else Replying(k + 1))
    case Stop => s.(worker := Stopped)
  }

  // ----- what every state keeps

  /** The jobs of all processed batches, in order. */
  function Finished(log: seq<Batch>): seq<Job> {
    if log == [] then [] else Finished(log[..|log| - 1]) + log[|log| - 1].jobs
  }

  /** The jobs the worker holds before the processor has answered. */
  function Held(w: Worker): seq<Job> {
    if w.Collecting? || w.Processing? then w.jobs else []
  }

  function SucceededJobs(log: seq<Batch>): nat {
    if log == [] then 0
    else SucceededJobs(log[..|log| - 1]) + (if Succeeded(log[|log| - 1]) then |log[|log| - 1].jobs| else 0)
  }

  function LargestBatch(log: seq<Batch>): nat {
    if log == [] then 0
    else
      var before, n := LargestBatch(log[..|log| - 1]), |log[|log| - 1].jobs|;
      if before < n then n else before
  }

  /** The reply due to the i-th job: that of its own place in its own batch. */
  function ReplyDue(log: seq<Batch>, i: nat): Reply
    requires i < |Finished(log)|
  {
    var front, last := log[..|log| - 1], log[|log| - 1];
    if i < |Finished(front)| then ReplyDue(front, i) else ReplyIn(last, i - |Finished(front)|)
  }

  /** How many jobs have their reply. */
  function Replied(s: State): int {
    if s.worker.Replying? && s.log != []
    then |Finished(s.log[..|s.log| - 1])| + s.worker.sentReplies
    else |Finished(s.log)|
  }

  /** Successful sends are counted or about to be. */
  predicate SendsCounted(s: State) {
    && (forall j :: j in s.uncounted ==> j < |s.sent|)
    && s.accepted + |s.uncounted| == |s.sent|
    && (s.closed ==> s.uncounted == {})
  }

  /** Finished, held and queued jobs are all sends, in the order they were sent. */
  predicate InOrder(s: State) {
    Finished(s.log) + Held(s.worker) + s.queue == Range(|s.sent|)
  }

  predicate GoodBatch(c: Config, b: Batch) {
    0 < |b.jobs| <= c.maxBatchSize
  }

  /** No batch is empty or exceeds the limit, finished or in the making. */
  predicate BatchesBounded(c: Config, s: State) {
    && (forall i :: 0 <= i < |s.log| ==> GoodBatch(c, s.log[i]))
    && (s.worker.Collecting? || s.worker.Processing? ==> 0 < |s.worker.jobs| <= c.maxBatchSize)
  }

  function Larger(a: nat, b: nat): nat { if a < b then b else a }

  predicate MetricsRight(s: State) {
    && s.completed == SucceededJobs(s.log) && s.completed + s.failed == |Finished(s.log)|
    && s.batches == |s.log| + (if s.worker.Processing? then 1 else 0)
    && s.maxBatchSeen ==
         if s.worker.Processing? then Larger(LargestBatch(s.log), |s.worker.jobs|) else LargestBatch(s.log)
  }

  /** Exactly the first n jobs have a reply, each the one that is due to it. */
  ghost predicate RepliesAre(replies: map<Job, Reply>, log: seq<Batch>, n: int) {
    && 0 <= n <= |Finished(log)|
    && (forall j :: j in replies ==> 0 <= j < n)
    && (forall j :: 0 <= j < n ==> RepliedAt(replies, log, j))
  }

  /** Job j has the reply that is due to it. */
  ghost predicate RepliedAt(replies: map<Job, Reply>, log: seq<Batch>, j: Job) {
    j < |Finished(log)| && j in replies && replies[j] == ReplyDue(log, j)
  }

  ghost predicate RepliesRight(s: State) {
    && (s.worker.Replying? ==> s.log != [] && s.worker.sentReplies < |s.log[|s.log| - 1].jobs|)
    && RepliesAre(s.replies, s.log, Replied(s))
  }

  ghost predicate Inv(c: Config, s: State) {
    && SendsCounted(s) && InOrder(s) && BatchesBounded(c, s) && MetricsRight(s) && RepliesRight(s)
    && |s.queue| <= c.queueDepth
    && (s.worker.Stopped? ==> s.closed && s.queue == [])
  }

  lemma InitialHolds(c: Config, s: State)
    requires Initial(s)
    ensures Inv(c, s)
  {
  }

  lemma LogOneMore(log: seq<Batch>, b: Batch)
    ensures Finished(log + [b]) == Finished(log) + b.jobs
    ensures SucceededJobs(log + [b]) == SucceededJobs(log) + (if Succeeded(b) then |b.jobs| else 0)
    ensures LargestBatch(log + [b]) == if LargestBatch(log) < |b.jobs| then |b.jobs| else LargestBatch(log)
    ensures (log + [b])[..|log|] == log
  {
    assert (log + [b])[..|log|] == log;
  }

  lemma SentInOrder(finished: seq<Job>, held: seq<Job>, queue: seq<Job>, n: nat)
    requires finished + held + queue == Range(n)
    ensures finished + held + (queue + [n]) == Range(n + 1)
  {
  }

  lemma SendKeeps(c: Config, s: State, request: Bytes)
    requires Inv(c, s) && Enabled(c, s, TrySend(request))
    ensures Inv(c, Apply(c, s, TrySend(request)))
  {
    var s' := Apply(c, s, TrySend(request));
    if |s.queue| < c.queueDepth {
      var n := |s.sent|;
      assert n !in s.uncounted;
      SentInOrder(Finished(s.log), Held(s.worker), s.queue, n);
      assert Replied(s') == Replied(s);
    }
  }

  lemma CountKeeps(c: Config, s: State, job: Job)
    requires Inv(c, s) && Enabled(c, s, Count(job))
    ensures Inv(c, Apply(c, s, Count(job)))
  {
    var s' := Apply(c, s, Count(job));
    assert Replied(s') == Replied(s);
  }

  lemma TakenInOrder(finished: seq<Job>, held: seq<Job>, queue: seq<Job>)
    requires queue != []
    ensures finished + (held + [queue[0]]) + queue[1..] == finished + held + queue
  {
  }

  lemma TakeKeeps(c: Config, s: State, a: Action)
    requires c.maxBatchSize > 0 && Inv(c, s) && Enabled(c, s, a) && (a.TakeFirst? || a.TakeNext?)
    ensures Inv(c, Apply(c, s, a))
  {
    var s' := Apply(c, s, a);
    TakenInOrder(Finished(s.log), Held(s.worker), s.queue);
    assert Held(s'.worker) == Held(s.worker) + [s.queue[0]];
    assert Replied(s') == Replied(s);
  }

  lemma CollectionKeeps(c: Config, s: State, a: Action)
    requires Inv(c, s) && Enabled(c, s, a) && (a.SeeEmpty? || a.EndCollection? || a.CloseHandles? || a.Stop?)
    ensures Inv(c, Apply(c, s, a))
  {
    var s' := Apply(c, s, a);
    assert Replied(s') == Replied(s);
  }

  lemma ProcessKeeps(c: Config, s: State, outcome: Outcome)
    requires Inv(c, s) && Enabled(c, s, Process(outcome))
    ensures Inv(c, Apply(c, s, Process(outcome)))
  {
    ProcessKeepsOrder(c, s, outcome);
    ProcessKeepsReplies(c, s, outcome);
  }

  /** The jobs the worker held are finished. */
  lemma ProcessKeepsOrder(c: Config, s: State, outcome: Outcome)
    requires InOrder(s) && BatchesBounded(c, s) && MetricsRight(s) && Enabled(c, s, Process(outcome))
    ensures var s' := Apply(c, s, Process(outcome)); InOrder(s') && BatchesBounded(c, s') && MetricsRight(s')
  {
    LogOneMore(s.log, Batch(s.worker.jobs, outcome));
    NothingHeld(Finished(s.log) + s.worker.jobs, s.queue);
  }

  lemma NothingHeld(finished: seq<Job>, queue: seq<Job>)
    ensures finished + [] + queue == finished + queue
  {
  }

  lemma ProcessKeepsReplies(c: Config, s: State, outcome: Outcome)
    requires BatchesBounded(c, s) && RepliesRight(s) && Enabled(c, s, Process(outcome))
    ensures RepliesRight(Apply(c, s, Process(outcome)))
  {
    var b := Batch(s.worker.jobs, outcome);
    LogOneMore(s.log, b);
    RepliesStay(s.replies, s.log, b, Replied(s));
  }

  /** Replies already due stay due when the log grows. */
  lemma RepliesStay(replies: map<Job, Reply>, log: seq<Batch>, b: Batch, n: int)
    requires RepliesAre(replies, log, n)
    ensures RepliesAre(replies, log + [b], n)
  {
    LogOneMore(log, b);
    forall j | 0 <= j < n ensures RepliedAt(replies, log + [b], j) {
      assert RepliedAt(replies, log, j);
    }
  }

  lemma OneMoreReply(replies: map<Job, Reply>, log: seq<Batch>, n: nat, reply: Reply)
    requires RepliesAre(replies, log, n) && n < |Finished(log)| && reply == ReplyDue(log, n)
    ensures RepliesAre(replies[n := reply], log, n + 1)
  {
    var more := replies[n := reply];
    forall j | 0 <= j < n + 1 ensures RepliedAt(more, log, j) {
      assert j < n ==> RepliedAt(replies, log, j);
    }
  }

  lemma ReplyKeeps(c: Config, s: State)
    requires Inv(c, s) && Enabled(c, s, SendReply)
    ensures Inv(c, Apply(c, s, SendReply))
    ensures s.log[|s.log| - 1].jobs[s.worker.sentReplies] !in s.replies
  {
    SendReplyKeepsReplies(c, s);
    SendReplyKeepsRest(c, s);
  }

  lemma SendReplyKeepsReplies(c: Config, s: State)
    requires InOrder(s) && RepliesRight(s) && Enabled(c, s, SendReply)
    ensures RepliesRight(Apply(c, s, SendReply))
    ensures s.log[|s.log| - 1].jobs[s.worker.sentReplies] !in s.replies
  {
    var front, b, k := s.log[..|s.log| - 1], s.log[|s.log| - 1], s.worker.sentReplies;
    var n := |Finished(front)| + k;
    JobAt(s, front, b, k, n);
    OneMoreReply(s.replies, s.log, n, ReplyIn(b, k));
  }

  /** A reply changes neither the jobs nor the counters. */
  lemma SendReplyKeepsRest(c: Config, s: State)
    requires InOrder(s) && BatchesBounded(c, s) && MetricsRight(s) && Enabled(c, s, SendReply)
    ensures var s' := Apply(c, s, SendReply); InOrder(s') && BatchesBounded(c, s') && MetricsRight(s')
  {
  }

  /** The k-th job of the last batch is the n-th send. */
  lemma JobAt(s: State, front: seq<Batch>, b: Batch, k: nat, n: nat)
    requires InOrder(s) && s.log == front + [b] && k < |b.jobs| && n == |Finished(front)| + k
    ensures b.jobs[k] == n && n < |Finished(s.log)|
  {
    LogOneMore(front, b);
    assert (Finished(s.log) + Held(s.worker) + s.queue)[n] == Finished(s.log)[n] == b.jobs[k];
  }

  /** Every step keeps the invariant. */
  lemma StepKeepsInv(c: Config, s: State, a: Action)
    requires c.maxBatchSize > 0 && Inv(c, s) && Enabled(c, s, a)
    ensures Inv(c, Apply(c, s, a))
  {
    match a
    case TrySend(request) => SendKeeps(c, s, request);
    case Count(job) => CountKeeps(c, s, job);
    case TakeFirst => TakeKeeps(c, s, a);
    case TakeNext => TakeKeeps(c, s, a);
    case Process(outcome) => ProcessKeeps(c, s, outcome);
    case SendReply => ReplyKeeps(c, s);
    case _ => CollectionKeeps(c, s, a);
  }

  // ----- runs

  /** An interleaving: every action is enabled where it happens. */
  ghost predicate Run(c: Config, s: State, actions: seq<Action>, end: State)
    decreases |actions|
  {
    if actions == [] then end == s
    else Enabled(c, s, actions[0]) && Run(c, Apply(c, s, actions[0]), actions[1..], end)
  }

  lemma {:induction false} RunKeepsInv(c: Config, s: State, actions: seq<Action>, end: State)
    requires c.maxBatchSize > 0 && Inv(c, s) && Run(c, s, actions, end)
    ensures Inv(c, end)
    decreases |actions|
  {
    if actions != [] {
      StepKeepsInv(c, s, actions[0]);
      RunKeepsInv(c, Apply(c, s, actions[0]), actions[1..], end);
    }
  }

  /** Conservation, in every interleaving: sends are accepted or about to be counted, and each is
      queued, held, completed or failed; the metrics say which. */
  lemma Conservation(c: Config, start: State, actions: seq<Action>, end: State)
    requires c.maxBatchSize > 0 && Initial(start) && Run(c, start, actions, end)
    ensures end.accepted + |end.uncounted| == |end.sent|
    ensures |end.sent| == |end.queue| + |Held(end.worker)| + end.completed + end.failed
    ensures end.maxBatchSeen <= c.maxBatchSize && |end.queue| <= c.queueDepth
  {
    InitialHolds(c, start);
    RunKeepsInv(c, start, actions, end);
    assert |Finished(end.log) + Held(end.worker) + end.queue| == |end.sent|;
    LargestIsBounded(c, end.log);
  }

  lemma {:induction false} LargestIsBounded(c: Config, log: seq<Batch>)
    requires forall i :: 0 <= i < |log| ==> GoodBatch(c, log[i])
    ensures LargestBatch(log) <= c.maxBatchSize
  {
    if log != [] {
      LargestIsBounded(c, log[..|log| - 1]);
      assert GoodBatch(c, log[|log| - 1]);
    }
  }

  /** A reply, once sent, is never replaced. */
  lemma {:induction false} RepliesAreFinal(c: Config, s: State, actions: seq<Action>, end: State, job: Job)
    requires c.maxBatchSize > 0 && Inv(c, s) && Run(c, s, actions, end) && job in s.replies
    ensures job in end.replies && end.replies[job] == s.replies[job]
    decreases |actions|
  {
    if actions != [] {
      StepKeepsInv(c, s, actions[0]);
      StepKeepsReply(c, s, actions[0], job);
      RepliesAreFinal(c, Apply(c, s, actions[0]), actions[1..], end, job);
    }
  }

  lemma StepKeepsReply(c: Config, s: State, a: Action, job: Job)
    requires InOrder(s) && RepliesRight(s) && Enabled(c, s, a) && job in s.replies
    ensures var s' := Apply(c, s, a); job in s'.replies && s'.replies[job] == s.replies[job]
  {
    if a.SendReply? {
      SendReplyKeepsReplies(c, s);
    }
  }

  /** A worker that stops has drained the queue: every successful send has its reply, and the reply
      is that of its own place in a batch of consecutive sends. */
  lemma StoppedIsDrained(c: Config, start: State, actions: seq<Action>, end: State)
    requires c.maxBatchSize > 0 && Initial(start) && Run(c, start, actions, end) && end.worker.Stopped?
    ensures end.queue == [] && end.accepted == |end.sent| == end.completed + end.failed
    ensures Finished(end.log) == Range(|end.sent|)
    ensures forall j :: j in end.replies <==> 0 <= j < |end.sent|
    ensures forall j :: 0 <= j < |end.sent| ==> end.replies[j] == ReplyDue(end.log, j)
  {
    InitialHolds(c, start);
    RunKeepsInv(c, start, actions, end);
    StoppedState(c, end);
  }

  lemma StoppedState(c: Config, s: State)
    requires Inv(c, s) && s.worker.Stopped?
    ensures s.queue == [] && s.accepted == |s.sent| == s.completed + s.failed
    ensures Finished(s.log) == Range(|s.sent|)
    ensures forall j :: j in s.replies <==> 0 <= j < |s.sent|
    ensures forall j :: 0 <= j < |s.sent| ==> s.replies[j] == ReplyDue(s.log, j)
  {
    assert Finished(s.log) + [] + [] == Finished(s.log);
    forall j | 0 <= j < |s.sent| ensures j in s.replies && s.replies[j] == ReplyDue(s.log, j) {
      assert RepliedAt(s.replies, s.log, j);
    }
  }
}
