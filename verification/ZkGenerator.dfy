/**
 `makeZkProofGenerator`: the packets queued for proving, and the proofs handed to each
 packet's callback, whatever the order in which the concurrent tasks complete.
 */
module ZkGenerator {
  import opened ByteData
  import opened Redaction
  import opened BlockReveal
  import opened ZkPlan
  import opened ZkVerify
  import opened ZkRoundTrip

  /** A queued packet; its position in the queue stands for its callback. */
  datatype PacketToProve = PacketToProve(cipher: Cipher, proofsToGenerate: seq<ProofToGenerate>)

  /** A task proves one slice of one packet. */
  datatype Task = Task(packet: nat, proof: nat)

  /** A call of a packet's `onGeneratedProofs`. */
  datatype Call = Call(packet: nat, proofs: seq<ZkProof>)

  // ----- tasks, and what completed ones give -----

  function TasksOfPacket(p: nat, n: nat): (tasks: seq<Task>)
    ensures |tasks| == n
    ensures forall k :: 0 <= k < n ==> tasks[k] == Task(p, k)
  {
    seq(n, k requires 0 <= k < n => Task(p, k))
  }

  /** All tasks of the first `n` packets, in the order in which they are queued. */
  function Tasks(packets: seq<PacketToProve>, n: nat): seq<Task>
    requires n <= |packets|
  {
    if n == 0 then []
    else Tasks(packets, n - 1) + TasksOfPacket(n - 1, |packets[n - 1].proofsToGenerate|)
  }

  predicate IsTask(packets: seq<PacketToProve>, t: Task) {
    t.packet < |packets| && t.proof < |packets[t.packet].proofsToGenerate|
  }

  predicate AreTasks(packets: seq<PacketToProve>, tasks: seq<Task>) {
    forall k :: 0 <= k < |tasks| ==> IsTask(packets, tasks[k])
  }

  /** `generateProofForChunk` for a task. */
  function Complete(packets: seq<PacketToProve>, t: Task): ZkProof
    requires IsTask(packets, t)
  {
    Prove(packets[t.packet].cipher, packets[t.packet].proofsToGenerate[t.proof])
  }

  /** The proofs that the first `n` completed tasks give for packet `p`. */
  function Results(packets: seq<PacketToProve>, tasks: seq<Task>, n: nat, p: nat): seq<ZkProof>
    requires AreTasks(packets, tasks) && n <= |tasks|
  {
    if n == 0 then []
    else
      var before := Results(packets, tasks, n - 1, p);
      if tasks[n - 1].packet == p then before + [Complete(packets, tasks[n - 1])] else before
  }

  lemma {:induction false} TasksAreTasks(packets: seq<PacketToProve>, n: nat)
    requires n <= |packets|
    ensures forall k :: 0 <= k < |Tasks(packets, n)| ==>
              IsTask(packets, Tasks(packets, n)[k]) && Tasks(packets, n)[k].packet < n
  {
    if n > 0 {
      TasksAreTasks(packets, n - 1);
    }
  }

  lemma {:induction false} ResultsOfPrefix(packets: seq<PacketToProve>, tasks: seq<Task>, more: seq<Task>, n: nat, p: nat)
    requires AreTasks(packets, tasks + more) && AreTasks(packets, tasks) && n <= |tasks|
    ensures Results(packets, tasks + more, n, p) == Results(packets, tasks, n, p)
  {
    if n > 0 {
      ResultsOfPrefix(packets, tasks, more, n - 1, p);
    }
  }

  /** Behind position `from`, only tasks of other packets. */
  lemma {:induction false} ResultsOfOthers(packets: seq<PacketToProve>, tasks: seq<Task>, from: nat, n: nat, p: nat)
    requires AreTasks(packets, tasks) && from <= n <= |tasks|
    requires forall k :: from <= k < n ==> tasks[k].packet != p
    ensures Results(packets, tasks, n, p) == Results(packets, tasks, from, p)
    decreases n
  {
    if from < n {
      ResultsOfOthers(packets, tasks, from, n - 1, p);
    }
  }

  /** Results of the packet's own tasks, which begin at position `from`. */
  lemma {:induction false} ResultsOfOwn(packets: seq<PacketToProve>, tasks: seq<Task>, from: nat, n: nat, p: nat)
    requires AreTasks(packets, tasks) && from + n <= |tasks| && p < |packets|
    requires n <= |packets[p].proofsToGenerate|
    requires forall k :: 0 <= k < n ==> tasks[from + k] == Task(p, k)
    ensures Results(packets, tasks, from + n, p)
         == Results(packets, tasks, from, p) + Proofs(packets[p].cipher, packets[p].proofsToGenerate[..n])
    decreases n
  {
    if n > 0 {
      ResultsOfOwn(packets, tasks, from, n - 1, p);
      var qs := packets[p].proofsToGenerate;
      assert Proofs(packets[p].cipher, qs[..n])
          == Proofs(packets[p].cipher, qs[..n - 1]) + [Prove(packets[p].cipher, qs[n - 1])];
      assert tasks[from + (n - 1)] == Task(p, n - 1);
    }
  }

  /** In the order of the queue, a packet gets the proofs of its plan in their order. */
  lemma {:induction false} ResultsInQueueOrder(packets: seq<PacketToProve>, n: nat, p: nat)
    requires n <= |packets| && p < |packets| && AreTasks(packets, Tasks(packets, n))
    ensures Results(packets, Tasks(packets, n), |Tasks(packets, n)|, p)
         == if p < n then Proofs(packets[p].cipher, packets[p].proofsToGenerate) else []
    decreases n
  {
    if n > 0 {
      TasksAreTasks(packets, n - 1);
      ResultsInQueueOrder(packets, n - 1, p);
      NextInQueueOrder(packets, n - 1, p, Tasks(packets, n - 1), Tasks(packets, n));
    }
  }

  lemma NextInQueueOrder(packets: seq<PacketToProve>, m: nat, p: nat, first: seq<Task>, tasks: seq<Task>)
    requires m < |packets| && p < |packets| && AreTasks(packets, first)
    requires tasks == first + TasksOfPacket(m, |packets[m].proofsToGenerate|)
    requires Results(packets, first, |first|, p)
          == if p < m then Proofs(packets[p].cipher, packets[p].proofsToGenerate) else []
    ensures AreTasks(packets, tasks)
    ensures Results(packets, tasks, |tasks|, p)
         == if p < m + 1 then Proofs(packets[p].cipher, packets[p].proofsToGenerate) else []
  {
    ResultsOfNextPacket(packets, first, m, p);
  }

  lemma ResultsOfNextPacket(packets: seq<PacketToProve>, first: seq<Task>, m: nat, p: nat)
    requires m < |packets| && p < |packets| && AreTasks(packets, first)
    ensures var own := TasksOfPacket(m, |packets[m].proofsToGenerate|);
            && AreTasks(packets, first + own)
            && Results(packets, first + own, |first + own|, p)
               == Results(packets, first, |first|, p)
                  + if p == m then Proofs(packets[p].cipher, packets[p].proofsToGenerate) else []
  {
    var own := TasksOfPacket(m, |packets[m].proofsToGenerate|);
    ResultsOfPrefix(packets, first, own, |first|, p);
    ResultsOfTasks(packets, first + own, |first|, m, p);
  }

  /** Behind position `from` are the tasks of packet `m` and no others. */
  lemma ResultsOfTasks(packets: seq<PacketToProve>, tasks: seq<Task>, from: nat, m: nat, p: nat)
    requires m < |packets| && p < |packets| && AreTasks(packets, tasks)
    requires |tasks| == from + |packets[m].proofsToGenerate|
    requires forall k :: from <= k < |tasks| ==> tasks[k] == Task(m, k - from)
    ensures Results(packets, tasks, |tasks|, p)
         == Results(packets, tasks, from, p)
            + if p == m then Proofs(packets[p].cipher, packets[p].proofsToGenerate) else []
  {
    var n := |packets[m].proofsToGenerate|;
    if p == m {
      ResultsOfOwn(packets, tasks, from, n, p);
      assert packets[p].proofsToGenerate[..n] == packets[p].proofsToGenerate;
    } else {
      ResultsOfOthers(packets, tasks, from, |tasks|, p);
    }
  }

  // ----- any other order -----

  function One(packets: seq<PacketToProve>, t: Task, p: nat): seq<ZkProof>
    requires IsTask(packets, t)
  {
    if t.packet == p then [Complete(packets, t)] else []
  }

  lemma ResultsSnoc(packets: seq<PacketToProve>, tasks: seq<Task>, t: Task, p: nat)
    requires AreTasks(packets, tasks) && IsTask(packets, t)
    ensures AreTasks(packets, tasks + [t])
    ensures Results(packets, tasks + [t], |tasks| + 1, p)
         == Results(packets, tasks, |tasks|, p) + One(packets, t, p)
  {
    ResultsOfPrefix(packets, tasks, [t], |tasks|, p);
  }

  /** All results for a packet. */
  function AllResults(packets: seq<PacketToProve>, tasks: seq<Task>, p: nat): seq<ZkProof>
    requires AreTasks(packets, tasks)
  {
    Results(packets, tasks, |tasks|, p)
  }

  /** One list of tasks gives a packet what the other gives and the given results. */
  ghost predicate GivesMore(packets: seq<PacketToProve>, xs: seq<Task>, ys: seq<Task>, more: seq<ZkProof>, p: nat)
    requires AreTasks(packets, xs) && AreTasks(packets, ys)
  {
    multiset(AllResults(packets, xs, p)) == multiset(AllResults(packets, ys, p)) + multiset(more)
  }

  lemma GivesMoreSnoc(packets: seq<PacketToProve>, xs: seq<Task>, ys: seq<Task>, more: seq<ZkProof>, t: Task, p: nat)
    requires AreTasks(packets, xs) && AreTasks(packets, ys) && IsTask(packets, t)
    requires GivesMore(packets, xs, ys, more, p)
    ensures AreTasks(packets, xs + [t]) && AreTasks(packets, ys + [t])
    ensures GivesMore(packets, xs + [t], ys + [t], more, p)
  {
    ResultsSnoc(packets, xs, t, p);
    ResultsSnoc(packets, ys, t, p);
  }

  /** One task more or less, wherever it completes. */
  lemma {:induction false} ResultsWithout(packets: seq<PacketToProve>, head: seq<Task>, t: Task, tail: seq<Task>, p: nat)
    requires AreTasks(packets, head) && IsTask(packets, t) && AreTasks(packets, tail)
    ensures AreTasks(packets, head + [t] + tail) && AreTasks(packets, head + tail)
    ensures GivesMore(packets, head + [t] + tail, head + tail, One(packets, t, p), p)
    decreases |tail|
  {
    if tail == [] {
      assert head + [t] + tail == head + [t] && head + tail == head;
      ResultsSnoc(packets, head, t, p);
    } else {
      var m := |tail| - 1;
      ResultsWithout(packets, head, t, tail[..m], p);
      GivesMoreSnoc(packets, head + [t] + tail[..m], head + tail[..m], One(packets, t, p), tail[m], p);
      assert head + [t] + tail == head + [t] + tail[..m] + [tail[m]];
      assert head + tail == head + tail[..m] + [tail[m]];
    }
  }

  lemma WithoutOne(head: seq<Task>, t: Task, tail: seq<Task>)
    ensures multiset(head + [t] + tail) == multiset(head + tail) + multiset{t}
  {
  }

  lemma SplitAt(ys: seq<Task>, t: Task) returns (head: seq<Task>, tail: seq<Task>)
    requires t in ys
    ensures ys == head + [t] + tail
  {
    var k :| 0 <= k < |ys| && ys[k] == t;
    head, tail := ys[..k], ys[k + 1..];
  }

  /** The last task taken out, and what is left on either side. */
  lemma TakenOut(xs: seq<Task>, t: Task, ys: seq<Task>) returns (head: seq<Task>, tail: seq<Task>)
    requires multiset(xs + [t]) == multiset(ys)
    ensures ys == head + [t] + tail
    ensures multiset(xs) == multiset(head + tail)
  {
    assert (xs + [t])[|xs|] in multiset(ys);
    head, tail := SplitAt(ys, t);
    WithoutOne(head, t, tail);
    assert multiset(xs) == multiset(xs + [t]) - multiset{t};
    assert multiset(head + tail) == multiset(ys) - multiset{t};
  }

  lemma SameTasks(packets: seq<PacketToProve>, xs: seq<Task>, ys: seq<Task>)
    requires AreTasks(packets, xs) && multiset(xs) == multiset(ys)
    ensures AreTasks(packets, ys)
  {
    forall k | 0 <= k < |ys|
      ensures IsTask(packets, ys[k])
    {
      assert ys[k] in multiset(xs);
    }
  }

  lemma TaskLists(packets: seq<PacketToProve>, xs: seq<Task>, ys: seq<Task>)
    ensures AreTasks(packets, xs + ys) <==> AreTasks(packets, xs) && AreTasks(packets, ys)
  {
    if AreTasks(packets, xs + ys) {
      assert forall k :: 0 <= k < |xs| ==> xs[k] == (xs + ys)[k];
      assert forall k :: 0 <= k < |ys| ==> ys[k] == (xs + ys)[|xs| + k];
    }
  }

  /** What a packet gets depends on the order of completion in its order only. */
  lemma {:induction false} ResultsInAnyOrder(packets: seq<PacketToProve>, xs: seq<Task>, ys: seq<Task>, p: nat)
    requires AreTasks(packets, xs) && AreTasks(packets, ys) && multiset(xs) == multiset(ys)
    ensures multiset(AllResults(packets, xs, p)) == multiset(AllResults(packets, ys, p))
    decreases |xs|, 0
  {
    if xs == [] {
      assert |multiset(ys)| == 0;
    } else {
      assert xs == xs[..|xs| - 1] + [xs[|xs| - 1]];
      LastResult(packets, xs[..|xs| - 1], xs[|xs| - 1], ys, p);
    }
  }

  lemma {:induction false} LastResult(packets: seq<PacketToProve>, xs: seq<Task>, t: Task, ys: seq<Task>, p: nat)
    requires AreTasks(packets, xs + [t]) && AreTasks(packets, ys) && multiset(xs + [t]) == multiset(ys)
    ensures multiset(AllResults(packets, xs + [t], p)) == multiset(AllResults(packets, ys, p))
    decreases |xs|, 1
  {
    TaskLists(packets, xs, [t]);
    var head, tail := TakenOut(xs, t, ys);
    TaskLists(packets, head + [t], tail);
    TaskLists(packets, head, [t]);
    TaskLists(packets, head, tail);
    assert IsTask(packets, [t][0]);
    ResultsInAnyOrder(packets, xs, head + tail, p);
    ResultsWithout(packets, head, t, tail, p);
    ResultsSnoc(packets, xs, t, p);
  }

  lemma {:induction false} ResultsGrow(packets: seq<PacketToProve>, tasks: seq<Task>, i: nat, n: nat, p: nat)
    requires AreTasks(packets, tasks) && i <= n <= |tasks|
    ensures |Results(packets, tasks, i, p)| <= |Results(packets, tasks, n, p)|
  {
    if i < n {
      ResultsGrow(packets, tasks, i, n - 1, p);
    }
  }

  /** An order in which all queued tasks complete. */
  ghost predicate CompletionOrder(packets: seq<PacketToProve>, order: seq<Task>) {
    multiset(order) == multiset(Tasks(packets, |packets|))
  }

  lemma CompletedResults(packets: seq<PacketToProve>, order: seq<Task>, p: nat)
    requires CompletionOrder(packets, order) && p < |packets|
    ensures AreTasks(packets, order)
    ensures multiset(Results(packets, order, |order|, p))
         == multiset(Proofs(packets[p].cipher, packets[p].proofsToGenerate))
    ensures |Results(packets, order, |order|, p)| == |packets[p].proofsToGenerate|
  {
    var tasks := Tasks(packets, |packets|);
    TasksAreTasks(packets, |packets|);
    SameTasks(packets, tasks, order);
    ResultsInAnyOrder(packets, tasks, order, p);
    ResultsInQueueOrder(packets, |packets|, p);
    SizeOfSame(Results(packets, order, |order|, p), Proofs(packets[p].cipher, packets[p].proofsToGenerate));
  }

  lemma SizeOfSame(xs: seq<ZkProof>, ys: seq<ZkProof>)
    requires multiset(xs) == multiset(ys)
    ensures |xs| == |ys|
  {
    assert |multiset(xs)| == |xs| && |multiset(ys)| == |ys|;
  }

  /** The calls a packet's callback has got. */
  function CallsFor(calls: seq<Call>, p: nat): seq<seq<ZkProof>> {
    if calls == [] then []
    else
      var n := |calls| - 1;
      CallsFor(calls[..n], p) + if calls[n].packet == p then [calls[n].proofs] else []
  }

  lemma CallsForSnoc(calls: seq<Call>, call: Call, p: nat)
    ensures CallsFor(calls + [call], p) == CallsFor(calls, p) + if call.packet == p then [call.proofs] else []
  {
    assert (calls + [call])[..|calls|] == calls;
  }

  /** After `i` tasks: collected proofs, proofs left, and one call for each complete packet. */
  ghost predicate Progress(packets: seq<PacketToProve>, order: seq<Task>, i: nat,
                           proofs: seq<seq<ZkProof>>, left: seq<int>, calls: seq<Call>, p: nat)
    requires AreTasks(packets, order) && i <= |order| && |proofs| == |left| == |packets| && p < |packets|
  {
    && proofs[p] == Results(packets, order, i, p)
    && left[p] == |packets[p].proofsToGenerate| - |proofs[p]|
    && CallsFor(calls, p) == if proofs[p] != [] && left[p] == 0 then [proofs[p]] else []
  }

  /** One packet's callback is called once, with its proofs in some order, if it has any. */
  ghost predicate CalledOnce(packets: seq<PacketToProve>, order: seq<Task>, calls: seq<Call>, p: nat)
    requires AreTasks(packets, order) && p < |packets|
  {
    CallsFor(calls, p)
    == if packets[p].proofsToGenerate == [] then [] else [Results(packets, order, |order|, p)]
  }

  /** What one more completed task leaves. */
  ghost predicate Completed(packets: seq<PacketToProve>, t: Task,
                            before: seq<seq<ZkProof>>, leftBefore: seq<int>, callsBefore: seq<Call>,
                            proofs: seq<seq<ZkProof>>, left: seq<int>, calls: seq<Call>)
  {
    && IsTask(packets, t) && |before| == |leftBefore| == |packets|
    && proofs == before[t.packet := before[t.packet] + [Complete(packets, t)]]
    && left == leftBefore[t.packet := leftBefore[t.packet] - 1]
    && calls == if left[t.packet] == 0 then callsBefore + [Call(t.packet, proofs[t.packet])] else callsBefore
  }

  lemma OwnProgress(packets: seq<PacketToProve>, order: seq<Task>, i: nat,
                    before: seq<seq<ZkProof>>, leftBefore: seq<int>, callsBefore: seq<Call>,
                    proofs: seq<seq<ZkProof>>, left: seq<int>, calls: seq<Call>)
    requires CompletionOrder(packets, order) && AreTasks(packets, order) && i < |order|
    requires Completed(packets, order[i], before, leftBefore, callsBefore, proofs, left, calls)
    requires Progress(packets, order, i, before, leftBefore, callsBefore, order[i].packet)
    ensures Progress(packets, order, i + 1, proofs, left, calls, order[i].packet)
  {
    var p := order[i].packet;
    CompletedResults(packets, order, p);
    ResultsGrow(packets, order, i + 1, |order|, p);
    CallsForSnoc(callsBefore, Call(p, proofs[p]), p);
  }

  lemma OtherProgress(packets: seq<PacketToProve>, order: seq<Task>, i: nat,
                      before: seq<seq<ZkProof>>, leftBefore: seq<int>, callsBefore: seq<Call>,
                      proofs: seq<seq<ZkProof>>, left: seq<int>, calls: seq<Call>, p: nat)
    requires AreTasks(packets, order) && i < |order| && p < |packets| && p != order[i].packet
    requires Completed(packets, order[i], before, leftBefore, callsBefore, proofs, left, calls)
    requires Progress(packets, order, i, before, leftBefore, callsBefore, p)
    ensures Progress(packets, order, i + 1, proofs, left, calls, p)
  {
    CallsForSnoc(callsBefore, Call(order[i].packet, proofs[order[i].packet]), p);
  }

  lemma Finished(packets: seq<PacketToProve>, order: seq<Task>,
                 proofs: seq<seq<ZkProof>>, left: seq<int>, calls: seq<Call>, p: nat)
    requires CompletionOrder(packets, order) && AreTasks(packets, order)
    requires |proofs| == |left| == |packets| && p < |packets|
    requires Progress(packets, order, |order|, proofs, left, calls, p)
    ensures CalledOnce(packets, order, calls, p)
  {
    CompletedResults(packets, order, p);
  }

  // ----- the generator -----

  /** What `addPacketToProve` collects for the packet being added. */
  class PacketInWork {
    const ciphertext: Bytes
    const redactedPlaintext: Bytes
    var slicesDone: seq<Slice>
    var proofsToGenerate: seq<ProofToGenerate>

    constructor (ciphertext: Bytes, redactedPlaintext: Bytes)
      ensures this.ciphertext == ciphertext && this.redactedPlaintext == redactedPlaintext
      ensures Plan() == ZkPlan.Plan([], [])
    {
      this.ciphertext, this.redactedPlaintext := ciphertext, redactedPlaintext;
      slicesDone, proofsToGenerate := [], [];
    }

    function Plan(): ZkPlan.Plan
      reads this
    {
      ZkPlan.Plan(slicesDone, proofsToGenerate)
    }
  }

  class ZkProofGenerator {
    const algorithm: Algorithm
    var packetsToProve: seq<PacketToProve>
    var zkProofsToGen: nat

    constructor (algorithm: Algorithm)
      ensures this.algorithm == algorithm && packetsToProve == [] && zkProofsToGen == 0
    {
      this.algorithm := algorithm;
      packetsToProve, zkProofsToGen := [], 0;
    }

    method AddProofsToGenerate(work: PacketInWork, fromIndex: nat, toIndex: nat, toprf: Option<BlockToprf>)
      modifies work, this`zkProofsToGen
      ensures work.Plan() == AddProofs(algorithm, work.ciphertext, work.redactedPlaintext, fromIndex, toIndex,
                                       toprf, old(work.Plan()))
      ensures zkProofsToGen == old(zkProofsToGen) + |work.proofsToGenerate| - |old(work.proofsToGenerate)|
    {
      var i := fromIndex;
      while i < toIndex
        invariant AddProofs(algorithm, work.ciphertext, work.redactedPlaintext, i, toIndex, toprf, work.Plan())
               == AddProofs(algorithm, work.ciphertext, work.redactedPlaintext, fromIndex, toIndex, toprf, old(work.Plan()))
        invariant zkProofsToGen == old(zkProofsToGen) + |work.proofsToGenerate| - |old(work.proofsToGenerate)|
      {
        ghost var before := work.Plan();
        var slice := Slice(i, Min(i + algorithm.chunk, toIndex));
        work.slicesDone := work.slicesDone + [slice];
        var params := ProofFor(work.ciphertext, work.redactedPlaintext, slice, toprf);
        if params.Some? {
          work.proofsToGenerate := work.proofsToGenerate + [params.value];
          zkProofsToGen := zkProofsToGen + 1;
        }
        assert work.Plan() == AddSlice(work.ciphertext, work.redactedPlaintext, slice, toprf, before);
        i := i + algorithm.chunk;
      }
    }

    method OverlapsDone(work: PacketInWork, slice: Slice) returns (overlap: bool)
      ensures overlap <==> exists k :: 0 <= k < |work.slicesDone| && Overlaps(slice, work.slicesDone[k])
    {
      for k := 0 to |work.slicesDone|
        invariant forall j :: 0 <= j < k ==> !Overlaps(slice, work.slicesDone[j])
      {
        if Overlaps(slice, work.slicesDone[k]) {
          return true;
        }
      }
      return false;
    }

    /** One TOPRF slice; nothing is added if it is refused. */
    method PlaceToprf(work: PacketInWork, toprf: BlockToprf) returns (error: Option<Error>)
      modifies work, this`zkProofsToGen
      ensures AddToprf(algorithm, work.ciphertext, work.redactedPlaintext, toprf, old(work.Plan()))
           == if error.Some? then Err(error.value) else Ok(work.Plan())
      ensures error.Some? ==> work.Plan() == old(work.Plan())
      ensures zkProofsToGen == old(zkProofsToGen) + |work.proofsToGenerate| - |old(work.proofsToGenerate)|
    {
      if toprf.fromIndex + toprf.length > |work.ciphertext| {
        return Some(OutOfBounds);
      }
      var offset := IdealOffset(algorithm, toprf.fromIndex, toprf.length);
      if offset.Err? {
        return Some(offset.error);
      }
      OffsetAligned(algorithm, toprf.fromIndex, toprf.length);
      var slice := Slice(offset.value, Min(offset.value + algorithm.chunk, |work.ciphertext|));
      var overlap := OverlapsDone(work, slice);
      if overlap {
        return Some(Overlap);
      }
      AddProofsToGenerate(work, slice.fromIndex, slice.toIndex,
                          Some(toprf.(fromIndex := toprf.fromIndex - offset.value)));
      return None;
    }

    /** The TOPRF slices, until one is refused. */
    method PlaceToprfs(work: PacketInWork, toprfs: seq<BlockToprf>) returns (error: Option<Error>)
      requires work.Plan() == ZkPlan.Plan([], [])
      modifies work, this`zkProofsToGen
      ensures AddToprfs(algorithm, work.ciphertext, work.redactedPlaintext, toprfs)
           == if error.Some? then Err(error.value) else Ok(work.Plan())
      ensures zkProofsToGen == old(zkProofsToGen) + |work.proofsToGenerate|
    {
      for k := 0 to |toprfs|
        invariant AddToprfs(algorithm, work.ciphertext, work.redactedPlaintext, toprfs[..k]) == Ok(work.Plan())
        invariant zkProofsToGen == old(zkProofsToGen) + |work.proofsToGenerate|
      {
        AddToprfsStep(algorithm, work.ciphertext, work.redactedPlaintext, toprfs, k);
        error := PlaceToprf(work, toprfs[k]);
        if error.Some? {
          return;
        }
      }
      assert toprfs[..|toprfs|] == toprfs;
      return None;
    }

    /** Proofs for all that the TOPRF slices leave. */
    method FillRest(work: PacketInWork)
      modifies work, this`zkProofsToGen
      ensures work.Plan() == FillAll(algorithm, work.ciphertext, work.redactedPlaintext, old(work.Plan()))
      ensures zkProofsToGen == old(zkProofsToGen) + |work.proofsToGenerate| - |old(work.proofsToGenerate)|
    {
      var done := SortSlices(work.slicesDone);
      var fromIndex := 0;
      for n := 0 to |done|
        invariant fromIndex == if n == 0 then 0 else done[n - 1].toIndex
        invariant work.Plan()
               == FillGaps(algorithm, work.ciphertext, work.redactedPlaintext, done, n, old(work.Plan()))
        invariant zkProofsToGen == old(zkProofsToGen) + |work.proofsToGenerate| - |old(work.proofsToGenerate)|
      {
        if done[n].fromIndex > fromIndex {
          AddProofsToGenerate(work, fromIndex, done[n].fromIndex, None);
        }
        fromIndex := done[n].toIndex;
      }
      if fromIndex < |work.ciphertext| {
        AddProofsToGenerate(work, fromIndex, |work.ciphertext|, None);
      }
    }

    /**
     `addPacketToProve`. A packet that is refused is not queued, but what was counted
     for it until then stays counted.
     */
    method AddPacketToProve(cipher: Cipher, ciphertext: Bytes, redactedPlaintext: Bytes, toprfs: seq<BlockToprf>)
      returns (error: Option<Error>)
      modifies this
      ensures match PlanPacket(algorithm, ciphertext, redactedPlaintext, toprfs)
              case Err(e) =>
                && error == Some(e)
                && packetsToProve == old(packetsToProve)
                && zkProofsToGen >= old(zkProofsToGen)
              case Ok(plan) =>
                && error == None
                && packetsToProve == old(packetsToProve) + [PacketToProve(cipher, plan.proofs)]
                && zkProofsToGen == old(zkProofsToGen) + |plan.proofs|
    {
      var work := new PacketInWork(ciphertext, redactedPlaintext);
      error := PlaceToprfs(work, toprfs);
      if error.Some? {
        return;
      }
      FillRest(work);
      ZkPartition.SortProofsCount(work.proofsToGenerate, 0);
      assert |multiset(SortProofs(work.proofsToGenerate))| == |multiset(work.proofsToGenerate)|;
      work.proofsToGenerate := SortProofs(work.proofsToGenerate);
      packetsToProve := packetsToProve + [PacketToProve(cipher, work.proofsToGenerate)];
    }

    /**
     `generateProofs`, where `order` is the order in which the tasks complete: each
     packet with a proof to generate is called back exactly once, with its proofs.
     */
    method GenerateProofs(order: seq<Task>) returns (calls: seq<Call>)
      requires CompletionOrder(packetsToProve, order)
      modifies this
      ensures AreTasks(old(packetsToProve), order)
      ensures forall p :: 0 <= p < |old(packetsToProve)| ==> CalledOnce(old(packetsToProve), order, calls, p)
      ensures packetsToProve == []
      ensures zkProofsToGen == if old(packetsToProve) == [] then old(zkProofsToGen) else 0
    {
      var packets := packetsToProve;
      TasksAreTasks(packets, |packets|);
      SameTasks(packets, Tasks(packets, |packets|), order);
      calls := [];
      if |packets| == 0 {
        return;
      }
      var proofs: seq<seq<ZkProof>> := seq(|packets|, _ => []);
      var left: seq<int> := seq(|packets|, p requires 0 <= p < |packets| => |packets[p].proofsToGenerate|);
      for i := 0 to |order|
        invariant |proofs| == |left| == |packets|
        invariant forall p :: 0 <= p < |packets| ==> Progress(packets, order, i, proofs, left, calls, p)
      {
        var t := order[i];
        assert IsTask(packets, t);
        ghost var before, leftBefore, callsBefore := proofs, left, calls;
        proofs := proofs[t.packet := proofs[t.packet] + [Complete(packets, t)]];
        left := left[t.packet := left[t.packet] - 1];
        if left[t.packet] == 0 {
          calls := calls + [Call(t.packet, proofs[t.packet])];
        }
        ghost var done := i + 1;
        forall p | 0 <= p < |packets|
          ensures Progress(packets, order, done, proofs, left, calls, p)
        {
          assert Progress(packets, order, i, before, leftBefore, callsBefore, p);
          if p == t.packet {
            OwnProgress(packets, order, i, before, leftBefore, callsBefore, proofs, left, calls);
          } else {
            OtherProgress(packets, order, i, before, leftBefore, callsBefore, proofs, left, calls, p);
          }
        }
      }
      forall p | 0 <= p < |packets|
        ensures CalledOnce(packets, order, calls, p)
      {
        Finished(packets, order, proofs, left, calls, p);
      }
      packetsToProve, zkProofsToGen := [], 0;
    }
  }

  lemma {:induction false} AddToprfsFail(alg: Algorithm, ct: Bytes, rp: Bytes, toprfs: seq<BlockToprf>, n: nat)
    requires n <= |toprfs| && AddToprfs(alg, ct, rp, toprfs[..n]).Err?
    ensures AddToprfs(alg, ct, rp, toprfs) == AddToprfs(alg, ct, rp, toprfs[..n])
    decreases |toprfs|
  {
    if n == |toprfs| {
      assert toprfs[..n] == toprfs;
    } else {
      var m := |toprfs| - 1;
      assert toprfs[..m][..n] == toprfs[..n];
      AddToprfsFail(alg, ct, rp, toprfs[..m], n);
    }
  }

  /** The next TOPRF slice is placed, or the whole packet is refused as it is. */
  lemma AddToprfsStep(alg: Algorithm, ct: Bytes, rp: Bytes, toprfs: seq<BlockToprf>, k: nat)
    requires k < |toprfs| && AddToprfs(alg, ct, rp, toprfs[..k]).Ok?
    ensures var next := AddToprf(alg, ct, rp, toprfs[k], AddToprfs(alg, ct, rp, toprfs[..k]).value);
            && AddToprfs(alg, ct, rp, toprfs[..k + 1]) == next
            && (next.Err? ==> AddToprfs(alg, ct, rp, toprfs) == next)
  {
    assert toprfs[..k + 1][..k] == toprfs[..k];
    if AddToprfs(alg, ct, rp, toprfs[..k + 1]).Err? {
      AddToprfsFail(alg, ct, rp, toprfs, k + 1);
    }
  }

  // ----- to the verifier -----

  /**
   Whatever the order in which all tasks of all packets complete, a packet queued for a
   redacted plaintext gets either no call, when there is nothing to prove, or one call
   with proofs from which the verifier rebuilds exactly that redacted plaintext.
   */
  lemma EveryPacketRebuilt(o: Oracles, alg: Algorithm, packets: seq<PacketToProve>, order: seq<Task>, calls: seq<Call>,
                           p: nat, pt: Bytes, rp: Bytes, ct: Bytes, toprfs: seq<BlockToprf>)
    requires CompletionOrder(packets, order) && AreTasks(packets, order) && p < |packets|
    requires CalledOnce(packets, order, calls, p)
    requires StarFree(o) && ct == Crypt(packets[p].cipher, pt, 0) && Redacts(o, pt, rp, toprfs)
    requires PlanPacket(alg, ct, rp, toprfs).Ok?
    requires forall k :: 0 <= k < |toprfs| ==> FitsSlice(alg, |ct|, toprfs[k])
    requires packets[p].proofsToGenerate == PlanPacket(alg, ct, rp, toprfs).value.proofs
    ensures if FullyRedacted(rp) then CallsFor(calls, p) == []
            else |CallsFor(calls, p)| == 1
                 && Rebuild(o, packets[p].cipher, ct, CallsFor(calls, p)[0]) == Some(rp)
  {
    var qs := packets[p].proofsToGenerate;
    CompletedResults(packets, order, p);
    ProofsExactlyWhenShown(o, alg, pt, rp, ct, toprfs);
    if qs != [] {
      ProverVerifierRoundTrip(o, packets[p].cipher, alg, pt, rp, ct, toprfs, Results(packets, order, |order|, p));
    }
  }

  /** There is something to prove exactly when not everything is redacted. */
  lemma ProofsExactlyWhenShown(o: Oracles, alg: Algorithm, pt: Bytes, rp: Bytes, ct: Bytes, toprfs: seq<BlockToprf>)
    requires |ct| == |rp| && Redacts(o, pt, rp, toprfs) && PlanPacket(alg, ct, rp, toprfs).Ok?
    requires forall k :: 0 <= k < |toprfs| ==> FitsSlice(alg, |ct|, toprfs[k])
    ensures PlanPacket(alg, ct, rp, toprfs).value.proofs == [] <==> FullyRedacted(rp)
  {
    var qs := PlanPacket(alg, ct, rp, toprfs).value.proofs;
    ZkPartition.PlanIsPartition(alg, ct, rp, toprfs);
    if qs == [] {
      forall i | 0 <= i < |rp|
        ensures rp[i] == STAR
      {
        assert ZkPartition.ProofCount(qs, i) == 0;
      }
    } else {
      assert qs[0] in qs;
      var s := PlannedHonest(o, alg, pt, rp, ct, toprfs, qs[0]);
      var chunk := Take(rp, s.fromIndex, s.toIndex);
      assert !FullyRedacted(chunk);
      var i :| 0 <= i < |chunk| && chunk[i] != STAR;
      assert rp[s.fromIndex + i] != STAR;
    }
  }
}
