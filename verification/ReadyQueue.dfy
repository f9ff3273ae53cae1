/** The ready queue of nty_schedule.c on the linked tail queue itself: what the coroutine in control does to it, and
    one pass over it.  Scheduler tells the same of a sequence. */
module ReadyQueue {
  import opened TailQueue

  /** What one resume does to the queue: the coroutines it creates join it, and if it ends in a sleep, so does the
      one in control. */
  datatype Burst = Burst(born: seq<Entry>, again: bool)

  function Joins(co: Entry, b: Burst): seq<Entry> { b.born + if b.again then [co] else [] }

  /** New coroutines are nobody in the queue, and nobody is created twice. */
  ghost predicate AllNew(bursts: nat -> Burst, c: seq<Entry>, s: set<Entry>) {
    && (forall x :: x in c ==> x in s)
    && (forall n, x :: 0 <= n && x in bursts(n).born ==> x in s && x !in c)
    && (forall n :: 0 <= n ==> Distinct(bursts(n).born))
    && (forall n, k, x :: 0 <= n < k && x in bursts(n).born ==> x !in bursts(k).born)
  }

  /** The creations and the sleep of one burst, among the coroutines `s`. */
  method Play(head: Entry, co: Entry, b: Burst, ghost c: seq<Entry>, ghost s: set<Entry>)
    requires Holds(c) && c[0] == head && (forall x :: x in c || x in b.born || x == co ==> x in s)
    requires co !in c && co !in b.born && Distinct(b.born) && forall x :: x in b.born ==> x !in c
    modifies s
    ensures Holds(c + b.born + if b.again then [co] else [])
  {
    ghost var all := c;
    assert c + b.born[..0] == c && c != [];
    hide Holds;
    for k := 0 to |b.born|
      invariant all == c + b.born[..k] && Holds(all)
    {
      Behind(c, b.born, k);
      InsertTail(head, b.born[k], all);
      all := all + [b.born[k]];
    }
    Behind(c, b.born, |b.born|);
    if b.again {
      InsertTail(head, co, all);
    }
    AllJoined(c, co, b);
  }

  lemma Behind(c: seq<Entry>, born: seq<Entry>, k: nat)
    requires c != [] && k <= |born| && Distinct(born) && forall x :: x in born ==> x !in c
    ensures forall x :: x in c + born[..k] ==> x in c || x in born
    ensures (c + born[..k])[0] == c[0]
    ensures k < |born| ==> born[k] !in c + born[..k] && c + born[..k] + [born[k]] == c + born[..k + 1]
  {
  }

  lemma AllJoined(c: seq<Entry>, co: Entry, b: Burst)
    ensures c + b.born + (if b.again then [co] else []) ==
            if b.again then c + b.born[..|b.born|] + [co] else c + b.born[..|b.born|]
    ensures c + Joins(co, b) == c + b.born + if b.again then [co] else []
  {
  }

  /** TAILQ_FIRST and TAILQ_REMOVE. */
  method TakeFirst(head: Entry, ghost c: seq<Entry>) returns (co: Entry)
    requires Holds(c) && c[0] == head && |c| > 1
    modifies c
    ensures co == c[1] && Holds([head] + c[2..]) && co !in [head] + c[2..]
  {
    hide *;
    HoldsOnce(c);
    OnceOnly(c);
    var empty, first, last := Ends(head, c);
    co := first;
    Remove(head, co, c, 1);
  }

  lemma HoldsOnce(c: seq<Entry>)
    requires Holds(c)
    ensures c != [] && Distinct(c)
  {
  }

  lemma OnceOnly(c: seq<Entry>)
    requires Distinct(c) && |c| > 1
    ensures c[1] !in [c[0]] + c[2..] && c[..1] + c[2..] == [c[0]] + c[2..]
  {
  }

  /** What the first `n` coroutines of a pass have put behind it. */
  ghost function Joined(q: seq<Entry>, bursts: nat -> Burst, n: nat): seq<Entry>
    requires n <= |q|
  {
    if n == 0 then [] else Joined(q, bursts, n - 1) + Joins(q[n - 1], bursts(n - 1))
  }

  /** One after another: first whom a coroutine created, then itself if it slept. */
  lemma {:induction false} JoinedInOrder(q: seq<Entry>, bursts: nat -> Burst, m: nat, n: nat)
    requires m < n <= |q|
    ensures var next := Joined(q, bursts, m) + bursts(m).born + if bursts(m).again then [q[m]] else [];
      next == Joined(q, bursts, m + 1) && next <= Joined(q, bursts, n)
    ensures Joined(q, bursts, 0) == []
  {
    if m < n - 1 {
      JoinedInOrder(q, bursts, m, n - 1);
    }
  }

  lemma {:induction false} WhoJoined(q: seq<Entry>, bursts: nat -> Burst, n: nat)
    requires n <= |q|
    ensures forall x :: x in Joined(q, bursts, n) ==> x in q || exists k :: 0 <= k < n && x in bursts(k).born
  {
    if n > 0 {
      WhoJoined(q, bursts, n - 1);
      forall x | x in Joined(q, bursts, n) ensures x in q || exists k :: 0 <= k < n && x in bursts(k).born {
        if x in bursts(n - 1).born {
        } else if x in Joined(q, bursts, n - 1) {
        } else {
          assert x in Joins(q[n - 1], bursts(n - 1));
        }
      }
    }
  }

  /** The queue after `n` rounds of a pass. */
  ghost function Left(c: seq<Entry>, bursts: nat -> Burst, n: nat): seq<Entry>
    requires 1 + n <= |c|
  {
    [c[0]] + c[1 + n..] + Joined(c[1..], bursts, n)
  }

  /** A coroutine of the pass stands first, and whoever it creates is not in the queue. */
  lemma Round(c: seq<Entry>, bursts: nat -> Burst, s: set<Entry>, n: nat)
    requires Distinct(c) && 1 + n < |c| && AllNew(bursts, c, s)
    ensures var now, b := Left(c, bursts, n), bursts(n);
      && |now| > 1 && now[0] == c[0] && now[1] == c[1 + n] && c[1 + n] !in b.born && Distinct(b.born)
      && (forall x :: x in now || x in b.born ==> x in s) && (forall x :: x in b.born ==> x !in [c[0]] + now[2..])
      && [c[0]] + now[2..] + Joins(c[1 + n], b) == Left(c, bursts, n + 1)
    ensures var after := Left(c, bursts, n + 1); |after| > 0 && after[0] == c[0] && (n + 2 < |c| ==> |after| > 1)
    ensures c[1..1 + n] + [c[1 + n]] == c[1..1 + (n + 1)]
    ensures c[1 + n] == c[|c| - 1] <==> n + 2 == |c|
  {
    var q, j := c[1..], Joined(c[1..], bursts, n);
    WhoJoined(q, bursts, n);
    var now := Left(c, bursts, n);
    assert now[2..] == c[2 + n..] + j;
    assert Joined(q, bursts, n + 1) == j + Joins(c[1 + n], bursts(n));
    hide Joined;
    forall x | x in now ensures x in s && x !in bursts(n).born {
      if x in j && x !in q {
        var k :| 0 <= k < n && x in bursts(k).born;
      }
    }
  }

  /** One round: the first coroutine leaves the queue and does what it does. */
  method OneRound(head: Entry, b: Burst, ghost now: seq<Entry>, ghost s: set<Entry>) returns (co: Entry)
    requires Holds(now) && |now| > 1 && now[0] == head && (forall x :: x in now || x in b.born ==> x in s)
    requires now[1] !in b.born && Distinct(b.born) && forall x :: x in b.born ==> x !in [head] + now[2..]
    modifies s
    ensures co == now[1] && Holds([head] + now[2..] + Joins(co, b))
  {
    assert forall x :: x in [head] + now[2..] ==> x in now;
    assert now[1] in now;
    hide Holds;
    co := TakeFirst(head, now);
    AllJoined([head] + now[2..], co, b);
    Play(head, co, b, [head] + now[2..], s);
  }

  /** The same, in the `n`-th round of a pass. */
  method NthRound(head: Entry, bursts: nat -> Burst, n: nat, ghost c: seq<Entry>, ghost s: set<Entry>) returns (co: Entry)
    requires Distinct(c) && AllNew(bursts, c, s) && 1 + n < |c| && c[0] == head && Holds(Left(c, bursts, n))
    modifies s
    ensures co == c[1 + n] && (co == c[|c| - 1] <==> n + 2 == |c|) && Holds(Left(c, bursts, n + 1))
    ensures Left(c, bursts, n + 1)[0] == head && (n + 2 < |c| ==> |Left(c, bursts, n + 1)| > 1)
  {
    var b := bursts(n);
    Round(c, bursts, s, n);
    hide *;
    ghost var now, next := Left(c, bursts, n), Left(c, bursts, n + 1);
    assert [head] + now[2..] + Joins(c[1 + n], b) == next;
    co := OneRound(head, b, now, s);
    assert Holds(next);
  }

  /** Step 2 of the main loop on the linked queue: whatever the coroutines do meanwhile, it resumes exactly those
      queued when it begins, in order and once each; behind them the queue holds who joined, in order. */
  method Pass(head: Entry, bursts: nat -> Burst, ghost c: seq<Entry>, ghost s: set<Entry>) returns (resumed: seq<Entry>)
    requires Holds(c) && c[0] == head && AllNew(bursts, c, s)
    modifies s
    ensures resumed == c[1..] && Holds([head] + Joined(c[1..], bursts, |c| - 1))
  {
    hide *;
    HoldsOnce(c);
    Unplayed(c, bursts);
    Played(c, bursts);
    resumed := [];
    var empty, first, last := Ends(head, c);
    while !empty
      invariant 1 + |resumed| <= |c| && Holds(Left(c, bursts, |resumed|))
      invariant forall i :: 0 <= i < |resumed| ==> resumed[i] == c[1 + i]
      invariant empty <==> 1 + |resumed| == |c|
      decreases |c| - |resumed|
    {
      var co := NthRound(head, bursts, |resumed|, c, s);
      resumed := resumed + [co];
      assert Holds(Left(c, bursts, |resumed|));
      if co == last { break; }
      var f, l;
      empty, f, l := Ends(head, Left(c, bursts, |resumed|));
    }
  }

  lemma Unplayed(c: seq<Entry>, bursts: nat -> Burst)
    requires c != []
    ensures Left(c, bursts, 0) == c
  {
  }

  lemma Played(c: seq<Entry>, bursts: nat -> Burst)
    requires c != []
    ensures Left(c, bursts, |c| - 1) == [c[0]] + Joined(c[1..], bursts, |c| - 1) && c[1..|c|] == c[1..]
  {
    hide Joined;
    NoneLeft(c, |c| - 1, Joined(c[1..], bursts, |c| - 1));
  }

  lemma NoneLeft(c: seq<Entry>, n: nat, j: seq<Entry>)
    requires |c| == n + 1
    ensures [c[0]] + c[1 + n..] + j == [c[0]] + j && c[1..|c|] == c[1..]
  {
  }
}
