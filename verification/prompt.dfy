/** The program's re-prompt loops, once: read lines until one is accepted.
    Every validator of the model is a per-line function returning `None` for
    a line the program answers with "please try again"; running out of input
    (where Java's `Scanner` would throw) returns `None` as well. */
module Prompt {
  import opened Wrappers

  /** Reads `lines` in order and returns the value of the first line that
      `accept` takes, with the number of lines consumed. A line is whatever
      one prompt reads: a text line, or a number where the program calls
      `Scanner.nextInt`. */
  method ReadUntil<I, T>(lines: seq<I>, accept: I -> Option<T>) returns (r: Option<T>, used: nat)
    ensures used <= |lines|
    ensures r.Some? ==> 1 <= used && accept(lines[used - 1]) == r
    ensures r.None? ==> used == |lines|
    ensures forall j | 0 <= j < |lines| && j < used - 1 :: accept(lines[j]).None?
    ensures r.None? ==> forall j | 0 <= j < |lines| :: accept(lines[j]).None?
    ensures r.Some? ==> FirstAccepted(lines, accept, used - 1)
    ensures forall i | FirstAccepted(lines, accept, i) :: r.Some? && i == used - 1
    ensures r.Some? ==> Answered(lines, accept, 0, used, r.value)
  {
    var i := 0;
    r, used := None, |lines|;
    while i < |lines| && r.None?
      invariant 0 <= i <= |lines|
      invariant r.None? ==> used == |lines| && forall j | 0 <= j < i :: accept(lines[j]).None?
      invariant r.Some? ==> 1 <= used == i && FirstAccepted(lines, accept, used - 1) && accept(lines[used - 1]) == r
    {
      var v := accept(lines[i]);
      if v.Some? {
        r, used := v, i + 1;
      }
      i := i + 1;
    }
    if r.Some? {
      forall k | FirstAccepted(lines, accept, k) ensures k == used - 1 {
        FirstAcceptedUnique(lines, accept, k, used - 1);
      }
    }
  }

  /** lines[i] is the first line `accept` takes: the one that ends the
      prompt. */
  predicate FirstAccepted<I, T>(lines: seq<I>, accept: I -> Option<T>, i: int) {
    0 <= i < |lines| && accept(lines[i]).Some?
    && forall j | 0 <= j < i :: accept(lines[j]).None?
  }

  /** Only one line can be the first one accepted. */
  lemma FirstAcceptedUnique<I, T>(lines: seq<I>, accept: I -> Option<T>, i: int, j: int)
    requires FirstAccepted(lines, accept, i) && FirstAccepted(lines, accept, j)
    ensures i == j
  {
    assert accept(lines[i]).Some? && accept(lines[j]).Some?;
  }

  /** lines[from..to] is one prompt's exchange: every line before the last
      is refused, and the last one is accepted as `v`. */
  ghost predicate Answered<I, T>(lines: seq<I>, accept: I -> Option<T>, from: int, to: int, v: T) {
    0 <= from < to <= |lines| && accept(lines[to - 1]) == Some(v)
    && forall j | from <= j < to - 1 :: accept(lines[j]).None?
  }

  /** A prompt is answered once: by the first line at or after `from` that
      it accepts. */
  lemma AnsweredUnique<I, T>(lines: seq<I>, accept: I -> Option<T>, from: int, to1: int, v1: T, to2: int, v2: T)
    requires Answered(lines, accept, from, to1, v1) && Answered(lines, accept, from, to2, v2)
    ensures to1 == to2 && v1 == v2
  {
    assert accept(lines[to1 - 1]).Some? && accept(lines[to2 - 1]).Some?;
  }

  /** An exchange read from lines[pos..] is the same exchange inside `lines`. */
  lemma AnsweredShift<I, T>(lines: seq<I>, accept: I -> Option<T>, pos: int, from: int, to: int, v: T)
    requires 0 <= pos <= |lines| && Answered(lines[pos..], accept, from, to, v)
    ensures Answered(lines, accept, pos + from, pos + to, v)
  {
    assert lines[pos + to - 1] == lines[pos..][to - 1];
    forall j | pos + from <= j < pos + to - 1 ensures accept(lines[j]).None? {
      assert lines[j] == lines[pos..][j - pos];
    }
  }

  /** Where prompt k's exchange starts: after the line that answered the
      prompt before it. */
  function Start(ends: seq<int>, k: int): int
    requires 0 <= k <= |ends|
  {
    if k == 0 then 0 else ends[k - 1]
  }

  /** The first k of `prompts` were answered one after another: prompt i by
      lines[Start(ends, i)..ends[i]], with `answers[i]`. */
  ghost predicate Steps<I, T>(lines: seq<I>, prompts: seq<I -> Option<T>>, k: int, ends: seq<int>, answers: seq<T>) {
    0 <= k <= |prompts| && |ends| == k && |answers| == k
    && (forall i | 0 <= i < k :: 0 < ends[i] <= |lines|)
    && (forall i {:trigger Start(ends, i)} | 0 <= i < k :: Start(ends, i) < ends[i])
    && forall i {:trigger Answered(lines, prompts[i], Start(ends, i), ends[i], answers[i])} | 0 <= i < k ::
         Answered(lines, prompts[i], Start(ends, i), ends[i], answers[i])
  }

  /** Every prompt was answered, in order. */
  ghost predicate Dialogue<I, T>(lines: seq<I>, prompts: seq<I -> Option<T>>, ends: seq<int>, answers: seq<T>) {
    Steps(lines, prompts, |prompts|, ends, answers)
  }

  /** The input ran out while prompt |answers| was still asking: the prompts
      before it were answered, and it refused every line that was left. */
  ghost predicate Stalled<I, T>(lines: seq<I>, prompts: seq<I -> Option<T>>, ends: seq<int>, answers: seq<T>) {
    Steps(lines, prompts, |answers|, ends, answers) && |answers| < |prompts|
    && forall j | Start(ends, |answers|) <= j < |lines| :: prompts[|answers|](lines[j]).None?
  }

  /** Two readings that reach prompt i at the same line give it the same
      answer, ending at the same line. */
  lemma AgreeAt<I, T>(lines: seq<I>, prompts: seq<I -> Option<T>>,
                      k1: int, ends1: seq<int>, answers1: seq<T>, k2: int, ends2: seq<int>, answers2: seq<T>, i: int)
    requires Steps(lines, prompts, k1, ends1, answers1) && Steps(lines, prompts, k2, ends2, answers2)
    requires 0 <= i < k1 && i < k2 && Start(ends1, i) == Start(ends2, i)
    ensures ends1[i] == ends2[i] && answers1[i] == answers2[i]
  {
    assert Answered(lines, prompts[i], Start(ends1, i), ends1[i], answers1[i]);
    assert Answered(lines, prompts[i], Start(ends2, i), ends2[i], answers2[i]);
    AnsweredUnique(lines, prompts[i], Start(ends1, i), ends1[i], answers1[i], ends2[i], answers2[i]);
  }

  /** The lines decide the answers: two readings of the same prompts agree
      on the first n prompts when both of them got that far. */
  lemma {:induction false} StepsAgree<I, T>(lines: seq<I>, prompts: seq<I -> Option<T>>,
                         k1: int, ends1: seq<int>, answers1: seq<T>, k2: int, ends2: seq<int>, answers2: seq<T>, n: int)
    requires Steps(lines, prompts, k1, ends1, answers1) && Steps(lines, prompts, k2, ends2, answers2)
    requires 0 <= n <= k1 && n <= k2
    ensures forall i | 0 <= i < n :: ends1[i] == ends2[i] && answers1[i] == answers2[i]
    decreases n
  {
    if n > 0 {
      StepsAgree(lines, prompts, k1, ends1, answers1, k2, ends2, answers2, n - 1);
      AgreeAt(lines, prompts, k1, ends1, answers1, k2, ends2, answers2, n - 1);
    }
  }

  /** A complete reading of the prompts is unique. */
  lemma DialogueUnique<I, T>(lines: seq<I>, prompts: seq<I -> Option<T>>,
                             ends1: seq<int>, answers1: seq<T>, ends2: seq<int>, answers2: seq<T>)
    requires Dialogue(lines, prompts, ends1, answers1) && Dialogue(lines, prompts, ends2, answers2)
    ensures ends1 == ends2 && answers1 == answers2
  {
    StepsAgree(lines, prompts, |prompts|, ends1, answers1, |prompts|, ends2, answers2, |prompts|);
  }

  /** In a complete dialogue every prompt gets an answer after the ones
      before it; so a prompt that refused every remaining line (`Stalled`)
      rules a complete dialogue out. */
  lemma DialogueAnswersEach<I, T>(lines: seq<I>, prompts: seq<I -> Option<T>>, k: int, ends: seq<int>, answers: seq<T>,
                                  allEnds: seq<int>, all: seq<T>)
    requires Steps(lines, prompts, k, ends, answers) && k < |prompts|
    requires Dialogue(lines, prompts, allEnds, all)
    ensures exists j | Start(ends, k) <= j < |lines| :: prompts[k](lines[j]).Some?
  {
    StepsAgree(lines, prompts, k, ends, answers, |prompts|, allEnds, all, k);
    assert Start(allEnds, k) == Start(ends, k);
    assert Answered(lines, prompts[k], Start(allEnds, k), allEnds[k], all[k]);
    assert prompts[k](lines[allEnds[k] - 1]).Some?;
  }

  /** In a complete dialogue prompt i accepted line ends[i] - 1 as answer i. */
  lemma DialogueAnswer<I, T>(lines: seq<I>, prompts: seq<I -> Option<T>>, ends: seq<int>, answers: seq<T>, i: int)
    requires Dialogue(lines, prompts, ends, answers) && 0 <= i < |prompts|
    ensures 0 < ends[i] <= |lines| && prompts[i](lines[ends[i] - 1]) == Some(answers[i])
  {
    assert Answered(lines, prompts[i], Start(ends, i), ends[i], answers[i]);
  }

  /** Answering the next prompt extends the steps by one. */
  lemma StepsExtend<I, T>(lines: seq<I>, prompts: seq<I -> Option<T>>, ends: seq<int>, answers: seq<T>, to: int, v: T)
    requires Steps(lines, prompts, |answers|, ends, answers) && |answers| < |prompts|
    requires Answered(lines, prompts[|answers|], Start(ends, |answers|), to, v)
    ensures Steps(lines, prompts, |answers| + 1, ends + [to], answers + [v])
  {
    var k := |answers|;
    forall i | 0 <= i < k + 1
      ensures Answered(lines, prompts[i], Start(ends + [to], i), (ends + [to])[i], (answers + [v])[i])
    {
      if i < k {
        assert Start(ends + [to], i) == Start(ends, i);
      }
    }
  }

  /** Asks `prompts` in order, each with `ReadUntil` on the lines that are
      left. Either every prompt is answered, or the input runs out while one
      is still asking. */
  method Converse<I, T>(lines: seq<I>, prompts: seq<I -> Option<T>>) returns (answers: seq<T>, ends: seq<int>)
    ensures |answers| == |prompts| ==> Dialogue(lines, prompts, ends, answers)
    ensures |answers| < |prompts| ==> Stalled(lines, prompts, ends, answers)
    ensures Steps(lines, prompts, |answers|, ends, answers)
  {
    answers, ends := [], [];
    var pos := 0;
    while |answers| < |prompts|
      invariant Steps(lines, prompts, |answers|, ends, answers)
      invariant pos == Start(ends, |answers|) && pos <= |lines|
    {
      var v, n := ReadUntil(lines[pos..], prompts[|answers|]);
      if v.None? {
        forall j | pos <= j < |lines| ensures prompts[|answers|](lines[j]).None? {
          assert lines[j] == lines[pos..][j - pos];
        }
        return;
      }
      AnsweredShift(lines, prompts[|answers|], pos, 0, n, v.value);
      StepsExtend(lines, prompts, ends, answers, pos + n, v.value);
      answers, ends := answers + [v.value], ends + [pos + n];
      pos := pos + n;
    }
  }
}
