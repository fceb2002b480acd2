/** The two ways of running a message schedule in FIPS PUB 180-1, for any recurrence and any
    round function.

    Section 7 expands the sixteen words of a block into eighty; section 8 keeps only the newest
    sixteen, in a circular queue.  Nothing here depends on what the words are. */
module MessageSchedule {

  /** mix combines the words 3, 8, 14 and 16 places back; round folds a word into the working
      variables. */
  datatype Scheme<!T, !C> = Scheme(mix: (T, T, T, T) -> T, round: (nat, T, C) -> C)

  // ---------------------------------------------------------------- section 7

  /** Word W_t of the expanded schedule. */
  function W<T, C>(x: Scheme<T, C>, block: seq<T>, t: nat): T
    requires |block| == 16
  {
    if t < 16 then block[t]
    else x.mix(W(x, block, t - 3), W(x, block, t - 8), W(x, block, t - 14), W(x, block, t - 16))
  }

  /** The working variables after the first t rounds. */
  function Rounds<T, C>(x: Scheme<T, C>, block: seq<T>, t: nat, s: C): C
    requires |block| == 16
  {
    if t == 0 then s else x.round(t - 1, W(x, block, t - 1), Rounds(x, block, t - 1, s))
  }

  // ---------------------------------------------------------------- section 8

  /** The circular queue and the working variables after some rounds. */
  datatype Machine<T, C> = Machine(queue: seq<T>, work: C)

  /** The queue in round t: from round 16 on a slot is overwritten before it is used. */
  function NextQueue<T, C>(x: Scheme<T, C>, t: nat, q: seq<T>): (r: seq<T>)
    requires |q| == 16
    ensures |r| == 16
  {
    var s := t % 16;
    if t < 16 then q
    else q[s := x.mix(q[(s + 13) % 16], q[(s + 8) % 16], q[(s + 2) % 16], q[s])]
  }

  function CircularRound<T, C>(x: Scheme<T, C>, t: nat, m: Machine<T, C>): (r: Machine<T, C>)
    requires |m.queue| == 16
    ensures |r.queue| == 16
  {
    var q := NextQueue(x, t, m.queue);
    Machine(q, x.round(t, q[t % 16], m.work))
  }

  function CircularRounds<T, C>(x: Scheme<T, C>, t: nat, m: Machine<T, C>): (r: Machine<T, C>)
    requires |m.queue| == 16
    ensures |r.queue| == 16
  {
    if t == 0 then m else CircularRound(x, t - 1, CircularRounds(x, t - 1, m))
  }

  /** Every slot holds the newest word of its residue class: word k for the sixteen k below t,
      or for k below 16 during the first sixteen rounds. */
  ghost predicate Window<T, C>(x: Scheme<T, C>, block: seq<T>, t: nat, queue: seq<T>)
    requires |block| == 16 && |queue| == 16
  {
    forall k: nat :: (k < 16 || k < t) && t <= k + 16 ==> queue[k % 16] == W(x, block, k)
  }

  lemma Residue(x: int, q: int, r: int)
    requires x == 16 * q + r && 0 <= r < 16
    ensures x % 16 == r
  {
  }

  lemma SlotIndex(t: nat, d: nat)
    requires 16 <= t && 0 < d <= 16
    ensures (t % 16 + 16 - d) % 16 == (t - d) % 16
  {
    var q, s := t / 16, t % 16;
    if d <= s {
      Residue(t - d, q, s - d);
      Residue(s + 16 - d, 1, s - d);
    } else {
      Residue(t - d, q - 1, s + 16 - d);
    }
  }

  /** The words between t - 16 and t lie in other slots than word t. */
  lemma OtherSlot(t: nat, k: nat)
    requires t < k + 16 && k < t
    ensures k % 16 != t % 16
  {
    assert t == 16 * (t / 16) + t % 16 && k == 16 * (k / 16) + k % 16;
  }

  lemma SlotOfWord<T, C>(x: Scheme<T, C>, block: seq<T>, t: nat, d: nat, queue: seq<T>)
    requires |block| == 16 && |queue| == 16 && Window(x, block, t, queue)
    requires 16 <= t && 0 < d <= 16
    ensures queue[(t % 16 + 16 - d) % 16] == W(x, block, t - d)
  {
    SlotIndex(t, d);
  }

  lemma WindowMoves<T, C>(x: Scheme<T, C>, block: seq<T>, t: nat, queue: seq<T>, next: seq<T>)
    requires |block| == 16 && |queue| == 16 && |next| == 16 && Window(x, block, t, queue)
    requires next == if t < 16 then queue else queue[t % 16 := W(x, block, t)]
    ensures Window(x, block, t + 1, next) && next[t % 16] == W(x, block, t)
  {
    hide W;
    forall k: nat | (k < 16 || k < t + 1) && t + 1 <= k + 16
      ensures next[k % 16] == W(x, block, k)
    {
      if k < t {
        OtherSlot(t, k);
      }
    }
  }

  lemma QueueStep<T, C>(x: Scheme<T, C>, block: seq<T>, t: nat, queue: seq<T>)
    requires |block| == 16 && |queue| == 16 && Window(x, block, t, queue)
    ensures NextQueue(x, t, queue) == if t < 16 then queue else queue[t % 16 := W(x, block, t)]
  {
    hide Window, W, NextQueue;
    NextQueueIs(x, t, queue);
    if t >= 16 {
      WordIs(x, block, t);
      SlotOfWord(x, block, t, 3, queue);
      SlotOfWord(x, block, t, 8, queue);
      SlotOfWord(x, block, t, 14, queue);
      SlotOfWord(x, block, t, 16, queue);
    }
  }

  lemma WordIs<T, C>(x: Scheme<T, C>, block: seq<T>, t: nat)
    requires |block| == 16 && t >= 16
    ensures W(x, block, t) == x.mix(W(x, block, t - 3), W(x, block, t - 8), W(x, block, t - 14), W(x, block, t - 16))
  {
  }

  lemma NextQueueIs<T, C>(x: Scheme<T, C>, t: nat, q: seq<T>)
    requires |q| == 16
    ensures t < 16 ==> NextQueue(x, t, q) == q
    ensures t >= 16 ==>
      var s := t % 16;
      NextQueue(x, t, q) ==
        q[s := x.mix(q[(s + 16 - 3) % 16], q[(s + 16 - 8) % 16], q[(s + 16 - 14) % 16], q[(s + 16 - 16) % 16])]
  {
  }

  /** Section 8 computes section 7: after t rounds the queue holds the newest sixteen words of
      the expanded schedule, and the working variables are the same. */
  lemma {:induction false} CircularQueueHoldsSchedule<T, C>(x: Scheme<T, C>, t: nat, block: seq<T>, s: C)
    requires |block| == 16
    ensures var r := CircularRounds(x, t, Machine(block, s));
            r.work == Rounds(x, block, t, s) && Window(x, block, t, r.queue)
  {
    hide W;
    if t == 0 {
      FirstWindow(x, block);
    } else {
      hide Window, NextQueue;
      CircularQueueHoldsSchedule(x, t - 1, block, s);
      var before := CircularRounds(x, t - 1, Machine(block, s));
      QueueStep(x, block, t - 1, before.queue);
      WindowMoves(x, block, t - 1, before.queue, CircularRound(x, t - 1, before).queue);
    }
  }

  lemma FirstWindow<T, C>(x: Scheme<T, C>, block: seq<T>)
    requires |block| == 16
    ensures Window(x, block, 0, block)
  {
  }
}
