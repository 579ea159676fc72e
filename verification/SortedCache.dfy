// What the packet cache of src/databfr.c means: a bounded, strictly time-sorted list of packets.
module SortedCache {
  import opened Bytes

  datatype Packet = Packet(time: real, id: int, valid: bool, bytes: seq<byte>)

  ghost predicate Sorted(s: seq<Packet>) {
    forall i, j :: 0 <= i < j < |s| ==> s[i].time < s[j].time
  }

  /** How many packets of a sorted list are older than t. */
  function LowerBound(s: seq<Packet>, t: real): (n: nat)
    ensures n <= |s|
    ensures Sorted(s) ==> forall i :: 0 <= i < n ==> s[i].time < t
    ensures n < |s| ==> t <= s[n].time
    ensures Sorted(s) ==> forall i :: n <= i < |s| ==> t <= s[i].time
  {
    if s == [] || t <= s[0].time then 0 else 1 + LowerBound(s[1..], t)
  }

  /** RING_STORE on the sorted list; the second part is its return value. */
  function Insert(s: seq<Packet>, p: Packet, n: nat): (seq<Packet>, int) {
    var i := LowerBound(s, p.time);
    if i < |s| && s[i].time == p.time then (s[i := p], 0)
    else if i == 0 && s != [] && |s| == n then (s, 1)
    else
      var t := s[..i] + [p] + s[i..];
      (if |s| == n then t[1..] else t, 0)
  }

  /** The cache after a list of stores, from a fresh allocation of n slots. */
  function Run(ops: seq<Packet>, n: nat): seq<Packet> {
    if ops == [] then [] else Insert(Run(ops[..|ops| - 1], n), ops[|ops| - 1], n).0
  }

  // ----- reference definition: the newest n distinct times, each with its last packet -----

  datatype Option<T> = None | Some(value: T)

  /** The last packet offered at time t. */
  function LastAt(ops: seq<Packet>, t: real): Option<Packet> {
    if ops == [] then None
    else if ops[|ops| - 1].time == t then Some(ops[|ops| - 1])
    else LastAt(ops[..|ops| - 1], t)
  }

  ghost function Times(ops: seq<Packet>): set<real> {
    set p | p in ops :: p.time
  }

  ghost predicate HoldsTime(s: seq<Packet>, t: real) {
    exists k :: 0 <= k < |s| && s[k].time == t
  }

  /** s is what a cache of n slots must hold after the stores ops. */
  ghost predicate IsNewest(s: seq<Packet>, ops: seq<Packet>, n: nat) {
    && Sorted(s) && |s| <= n
    && (forall k :: 0 <= k < |s| ==> LastAt(ops, s[k].time) == Some(s[k]))
    && (forall p :: p in ops ==> HoldsTime(s, p.time) || (0 < |s| == n && p.time < s[0].time))
  }

  lemma InsertSorted(s: seq<Packet>, p: Packet, n: nat)
    requires Sorted(s) && |s| <= n && n > 0
    ensures Sorted(Insert(s, p, n).0) && |Insert(s, p, n).0| <= n
    ensures Insert(s, p, n).0 != []
  {
    var i := LowerBound(s, p.time);
    if i == |s| || s[i].time != p.time {
      assert Sorted(s[..i] + [p] + s[i..]);
    }
  }

  /** What an insertion holds: the packet itself unless refused, and all the old times
      except the one it replaces and the oldest one when the list was full. */
  lemma InsertMembers(s: seq<Packet>, p: Packet, n: nat, k: nat)
    requires Sorted(s) && |s| <= n && n > 0
    requires k < |Insert(s, p, n).0|
    ensures var q := Insert(s, p, n).0[k]; q == p || (q in s && q.time != p.time)
  {
  }

  lemma InsertKeepsOld(s: seq<Packet>, p: Packet, n: nat, k: nat)
    requires Sorted(s) && |s| <= n && n > 0 && k < |s| && s[k].time != p.time
    ensures var r := Insert(s, p, n).0; s[k] in r || (0 < |r| == n && s[k].time < r[0].time)
  {
    var i := LowerBound(s, p.time);
    var r := Insert(s, p, n).0;
    if i < |s| && s[i].time == p.time {
      assert r[k] == s[k];
    } else if !(i == 0 && s != [] && |s| == n) {
      var j := (if k < i then k else k + 1) - (if |s| == n then 1 else 0);
      assert j >= 0 ==> r[j] == s[k];
      assert j < 0 ==> k == 0 && r[0].time > s[0].time;
    }
  }

  lemma InsertKeepsNew(s: seq<Packet>, p: Packet, n: nat)
    requires Sorted(s) && |s| <= n && n > 0
    ensures var r := Insert(s, p, n).0; p in r || (0 < |r| == n && p.time < r[0].time)
  {
    var i := LowerBound(s, p.time);
    var r := Insert(s, p, n).0;
    if i < |s| && s[i].time == p.time {
      assert r[i] == p;
    } else if !(i == 0 && s != [] && |s| == n) {
      assert r[i - (if |s| == n then 1 else 0)] == p;
    }
  }

  lemma InsertKeeps(s: seq<Packet>, p: Packet, n: nat, t: real)
    requires Sorted(s) && |s| <= n && n > 0
    requires HoldsTime(s, t) || t == p.time
    ensures var r := Insert(s, p, n).0; HoldsTime(r, t) || (0 < |r| == n && t < r[0].time)
  {
    if t == p.time {
      InsertKeepsNew(s, p, n);
    } else {
      var k :| 0 <= k < |s| && s[k].time == t;
      InsertKeepsOld(s, p, n, k);
    }
  }

  lemma LastAtOffered(ops: seq<Packet>, t: real)
    ensures LastAt(ops, t).Some? ==> LastAt(ops, t).value in ops && LastAt(ops, t).value.time == t
    ensures (exists p :: p in ops && p.time == t) ==> LastAt(ops, t).Some?
  {
    if ops != [] {
      var r := ops[..|ops| - 1];
      LastAtOffered(r, t);
      assert forall p :: p in ops <==> p in r || p == ops[|ops| - 1];
    }
  }

  lemma OldestGrows(s: seq<Packet>, p: Packet, n: nat)
    requires Sorted(s) && |s| == n && n > 0
    ensures var r := Insert(s, p, n).0; |r| == n && s[0].time <= r[0].time
  {
  }

  /** Every run of stores leaves exactly the newest times, each with its last packet. */
  lemma {:induction false} RunIsNewest(ops: seq<Packet>, n: nat)
    requires n > 0
    ensures IsNewest(Run(ops, n), ops, n)
  {
    if ops != [] {
      var before, p := ops[..|ops| - 1], ops[|ops| - 1];
      RunIsNewest(before, n);
      var s, r := Run(before, n), Run(ops, n);
      InsertSorted(s, p, n);
      forall k | 0 <= k < |r|
        ensures LastAt(ops, r[k].time) == Some(r[k])
      {
        InsertMembers(s, p, n, k);
      }
      forall q | q in ops
        ensures HoldsTime(r, q.time) || (0 < |r| == n && q.time < r[0].time)
      {
        assert q in before || q == p;
        if HoldsTime(s, q.time) || q.time == p.time {
          InsertKeeps(s, p, n, q.time);
        } else {
          OldestGrows(s, p, n);
        }
      }
    }
  }

  // ----- the reference definition determines the cache -----

  lemma {:induction false} TimesCard(s: seq<Packet>)
    requires Sorted(s)
    ensures |Times(s)| == |s|
  {
    if s == [] {
      assert Times(s) == {};
    } else {
      var r, p := s[..|s| - 1], s[|s| - 1];
      TimesCard(r);
      assert s == r + [p];
      assert Times(s) == Times(r) + {p.time};
      forall t | t in Times(r) ensures t != p.time {
        var q :| q in r && q.time == t;
      }
    }
  }

  lemma TimesAreOffered(s: seq<Packet>, ops: seq<Packet>, n: nat)
    requires IsNewest(s, ops, n)
    ensures Times(s) <= Times(ops)
  {
    forall t | t in Times(s) ensures t in Times(ops) {
      var k :| 0 <= k < |s| && s[k].time == t;
      LastAtOffered(ops, t);
    }
  }

  lemma NewestTimesSubset(s: seq<Packet>, s': seq<Packet>, ops: seq<Packet>, ops': seq<Packet>, n: nat, t: real)
    requires IsNewest(s, ops, n) && IsNewest(s', ops', n) && Times(ops) == Times(ops')
    requires t in Times(s)
    ensures t in Times(s')
  {
    if t !in Times(s') {
      TimesAreOffered(s, ops, n);
      TimesAreOffered(s', ops', n);
      var p :| p in ops' && p.time == t;
      assert !HoldsTime(s', t);
      forall u | u in Times(s') ensures u in Times(s) && u != t {
        var q :| q in ops && q.time == u;
        assert t < u;
      }
      var more := Times(s') + {t};
      assert |more| == |Times(s')| + 1;
      TimesCard(s);
      TimesCard(s');
      SubsetCard(more, Times(s));
    }
  }

  lemma {:induction false} SubsetCard<T>(a: set<T>, b: set<T>)
    requires a <= b
    ensures |a| <= |b|
  {
    if a != {} {
      var x :| x in a;
      SubsetCard(a - {x}, b - {x});
    }
  }

  lemma {:induction false} SortedByTimes(s: seq<Packet>, s': seq<Packet>)
    requires Sorted(s) && Sorted(s') && Times(s) == Times(s')
    ensures |s| == |s'| && forall k :: 0 <= k < |s| ==> s[k].time == s'[k].time
  {
    TimesCard(s);
    TimesCard(s');
    if s != [] {
      LastIsMax(s, s');
      LastIsMax(s', s);
      TimesButLast(s);
      TimesButLast(s');
      var r, r' := s[..|s| - 1], s'[..|s'| - 1];
      SortedByTimes(r, r');
      assert forall k :: 0 <= k < |r| ==> s[k] == r[k] && s'[k] == r'[k];
    }
  }

  lemma LastIsMax(s: seq<Packet>, s': seq<Packet>)
    requires Sorted(s) && Sorted(s') && Times(s) == Times(s') && s != [] && s' != []
    ensures s[|s| - 1].time <= s'[|s'| - 1].time
  {
    assert s[|s| - 1].time in Times(s');
    var q :| q in s' && q.time == s[|s| - 1].time;
  }

  lemma TimesButLast(s: seq<Packet>)
    requires Sorted(s) && s != []
    ensures Times(s[..|s| - 1]) == Times(s) - {s[|s| - 1].time}
  {
    var r, p := s[..|s| - 1], s[|s| - 1];
    assert s == r + [p];
    assert forall q :: q in r ==> q.time < p.time;
  }

  /** Which times are held depends only on the set of times offered, not on their order. */
  lemma TimesHeldOrderFree(s: seq<Packet>, s': seq<Packet>, ops: seq<Packet>, ops': seq<Packet>, n: nat)
    requires IsNewest(s, ops, n) && IsNewest(s', ops', n) && Times(ops) == Times(ops')
    ensures |s| == |s'| && forall k :: 0 <= k < |s| ==> s[k].time == s'[k].time
  {
    forall t ensures t in Times(s) <==> t in Times(s') {
      if t in Times(s) { NewestTimesSubset(s, s', ops, ops', n, t); }
      if t in Times(s') { NewestTimesSubset(s', s, ops', ops, n, t); }
    }
    assert Times(s) == Times(s');
    SortedByTimes(s, s');
  }

  /** Two runs that offer the same last packet at every time leave the same cache. */
  lemma RunOrderFree(ops: seq<Packet>, ops': seq<Packet>, n: nat)
    requires n > 0 && forall t :: LastAt(ops, t) == LastAt(ops', t)
    ensures Run(ops, n) == Run(ops', n)
  {
    var s, s' := Run(ops, n), Run(ops', n);
    RunIsNewest(ops, n);
    RunIsNewest(ops', n);
    forall t ensures t in Times(ops) <==> t in Times(ops') {
      LastAtOffered(ops, t);
      LastAtOffered(ops', t);
    }
    assert Times(ops) == Times(ops');
    TimesHeldOrderFree(s, s', ops, ops', n);
    forall k | 0 <= k < |s| ensures s[k] == s'[k] {
      assert LastAt(ops, s[k].time) == Some(s[k]) && LastAt(ops', s'[k].time) == Some(s'[k]);
    }
  }

  lemma RunLength(ops: seq<Packet>, n: nat)
    requires n > 0
    ensures |Run(ops, n)| == if |Times(ops)| < n then |Times(ops)| else n
  {
    var s := Run(ops, n);
    RunIsNewest(ops, n);
    TimesAreOffered(s, ops, n);
    TimesCard(s);
    SubsetCard(Times(s), Times(ops));
    if |s| < n {
      forall t | t in Times(ops) ensures t in Times(s) {
        var p :| p in ops && p.time == t;
        assert HoldsTime(s, t);
      }
      assert Times(s) == Times(ops);
    }
  }

  // ----- reading -----

  /** RING_RETR: the first packet at least one millisecond after t, if any. */
  function NextAfter(s: seq<Packet>, t: real): Option<Packet> {
    var i := LowerBound(s, t + 0.001);
    if i < |s| then Some(s[i]) else None
  }
}
