// The connection history of src/server.c: a singly linked list spliced in place by clhistory_lookup.
module History {

  /** ID_DELETE and ID_REMOVE_OLD, whose loops differ only in the test. */
  datatype Removal = ByKey(ip: string, serverPort: int) | OlderThan(searchTime: int)

  class Record {
    const ip: string
    const serverPort: int
    var lastPacketTime: real
    var lastUpdate: int
    var next: Record?

    constructor (ip: string, serverPort: int)
      ensures this.ip == ip && this.serverPort == serverPort
      ensures lastPacketTime == 0.0 && next == null
    {
      this.ip, this.serverPort := ip, serverPort;
      lastPacketTime, next := 0.0, null;
    }

    predicate HasKey(ip: string, serverPort: int) {
      this.ip == ip && this.serverPort == serverPort
    }

    /** The test of a removal loop. */
    predicate Doomed(removal: Removal)
      reads `lastUpdate
    {
      match removal
      case ByKey(ip, serverPort) => HasKey(ip, serverPort)
      case OlderThan(searchTime) => lastUpdate < searchTime
    }
  }

  /** The records that are not in the given set, in their order. */
  ghost function Without(s: seq<Record>, gone: set<Record>): seq<Record> {
    if s == [] then []
    else Without(s[..|s| - 1], gone) + (if s[|s| - 1] in gone then [] else [s[|s| - 1]])
  }

  ghost predicate DistinctKeys(s: seq<Record>) {
    forall i, j :: 0 <= i < j < |s| ==> !s[i].HasKey(s[j].ip, s[j].serverPort)
  }

  /** The next pointers run through the records of s, from head to null. */
  ghost predicate Linked(head: Record?, s: seq<Record>)
    reads s
  {
    && head == (if s == [] then null else s[0])
    && (forall i {:trigger s[i].next} :: 0 <= i < |s| ==> s[i].next == if i + 1 < |s| then s[i + 1] else null)
    && (forall i, j :: 0 <= i < j < |s| ==> s[i] != s[j])
  }

  /** gone is what the test of a removal loop selects from s. */
  ghost predicate Selects(s: seq<Record>, removal: Removal, gone: set<Record>)
    reads s`lastUpdate
  {
    forall k :: 0 <= k < |s| ==> (s[k].Doomed(removal) <==> s[k] in gone)
  }

  lemma {:induction false} WithoutMember(s: seq<Record>, gone: set<Record>, k: nat)
    requires k < |Without(s, gone)|
    ensures Without(s, gone)[k] in s && Without(s, gone)[k] !in gone
  {
    var r := s[..|s| - 1];
    if k < |Without(r, gone)| {
      WithoutMember(r, gone, k);
    }
  }

  lemma {:induction false} WithoutKeepsKeysApart(s: seq<Record>, gone: set<Record>)
    requires DistinctKeys(s)
    ensures DistinctKeys(Without(s, gone))
  {
    if s != [] {
      var r, last := s[..|s| - 1], s[|s| - 1];
      WithoutKeepsKeysApart(r, gone);
      forall k | 0 <= k < |Without(r, gone)|
        ensures !Without(r, gone)[k].HasKey(last.ip, last.serverPort)
      {
        WithoutMember(r, gone, k);
        var j :| 0 <= j < |r| && r[j] == Without(r, gone)[k];
        assert s[j] == r[j];
      }
    }
  }

  lemma WithoutSnoc(s: seq<Record>, i: nat, gone: set<Record>)
    requires i < |s|
    ensures Without(s[..i + 1], gone) == Without(s[..i], gone) + (if s[i] in gone then [] else [s[i]])
  {
    assert s[..i + 1][..i] == s[..i];
  }

  class List {
    var head: Record?
    ghost var Records: seq<Record>

    ghost predicate Valid()
      reads this, Records
    {
      Linked(head, Records) && DistinctKeys(Records)
    }

    constructor ()
      ensures Valid() && Records == []
    {
      head, Records := null, [];
    }

    /** The walk of ID_ADD and ID_RETR: the record with the key, or null, and the one before. */
    method Find(ip: string, serverPort: int) returns (cur: Record?, prev: Record?)
      requires Valid()
      ensures cur != null ==> cur in Records && cur.HasKey(ip, serverPort)
      ensures cur == null ==> forall r :: r in Records ==> !r.HasKey(ip, serverPort)
      ensures cur == null ==> prev == if Records == [] then null else Records[|Records| - 1]
    {
      cur, prev := head, null;
      ghost var i := 0;
      while cur != null && !cur.HasKey(ip, serverPort)
        invariant i <= |Records|
        invariant cur == if i < |Records| then Records[i] else null
        invariant prev == if i > 0 then Records[i - 1] else null
        invariant forall k :: 0 <= k < i ==> !Records[k].HasKey(ip, serverPort)
        decreases |Records| - i
      {
        prev := cur;
        cur := cur.next;
        i := i + 1;
      }
    }

    /** ID_RETR. */
    method Retr(ip: string, serverPort: int) returns (cur: Record?)
      requires Valid()
      ensures cur != null ==> cur in Records && cur.HasKey(ip, serverPort)
      ensures cur == null ==> forall r :: r in Records ==> !r.HasKey(ip, serverPort)
    {
      var found, _ := Find(ip, serverPort);
      cur := found;
    }

    /** ID_ADD: the record with the key; one is appended only when there was none. */
    method Add(ip: string, serverPort: int) returns (cur: Record)
      requires Valid()
      modifies this, Records`next
      ensures Valid() && cur in Records && cur.HasKey(ip, serverPort)
      ensures if old(exists r :: r in Records && r.HasKey(ip, serverPort)) then Records == old(Records)
              else Records == old(Records) + [cur] && fresh(cur) && cur.lastPacketTime == 0.0
    {
      var found, prev := Find(ip, serverPort);
      if found != null {
        return found;
      }
      cur := new Record(ip, serverPort);
      if head == null {
        head := cur;
      } else {
        prev.next := cur;
      }
      Records := Records + [cur];
    }

    /** The unlinking of one record, as both removals do it. */
    method Unlink(cur: Record, prev: Record?, ghost i: nat) returns (following: Record?)
      requires Linked(head, Records) && i < |Records| && Records[i] == cur
      requires i > 0 ==> prev == Records[i - 1]
      modifies this, (if prev == null then {} else {prev})`next
      ensures Records == old(Records)[..i] + old(Records)[i + 1..]
      ensures Linked(head, Records)
      ensures following == if i < |Records| then Records[i] else null
    {
      ghost var was := Records;
      assert was[0] == head;
      if head == cur {
        assert i == 0;
        head := cur.next;
        following := head;
      } else {
        prev.next := cur.next;
        following := prev.next;
      }
      Records := was[..i] + was[i + 1..];
      assert forall k :: 0 <= k < |Records| ==> Records[k] == if k < i then was[k] else was[k + 1];
    }

    /** Where a removal stands before its i-th record: the records before it are filtered,
        cur is that record and prev, if there is one, the record linked before it. */
    ghost predicate Pruned(was: seq<Record>, i: nat, gone: set<Record>, cur: Record?, prev: Record?)
      reads this, Records
    {
      && i <= |was| && Linked(head, Records)
      && Records == Without(was[..i], gone) + was[i..]
      && cur == (if i < |was| then was[i] else null)
      && var kept := Without(was[..i], gone);
         (kept != [] ==> prev == kept[|kept| - 1]) && (prev != null ==> prev in was)
    }

    /** cur is removed. */
    method DropOne(cur: Record, prev: Record?, ghost was: seq<Record>, ghost i: nat, ghost gone: set<Record>)
      returns (following: Record?)
      requires Pruned(was, i, gone, cur, prev) && cur in gone
      modifies this, (if prev == null then {} else {prev})`next
      ensures Pruned(was, i + 1, gone, following, prev)
    {
      WithoutSnoc(was, i, gone);
      ghost var k := |Without(was[..i], gone)|;
      ghost var before := Records;
      assert before[k] == was[i] && before[..k] == Without(was[..i], gone) && before[k + 1..] == was[i + 1..];
      following := Unlink(cur, prev, k);
      assert k < |Records| ==> Records[k] == was[i + 1];
    }

    /** cur stays. */
    lemma KeepOne(cur: Record, prev: Record?, was: seq<Record>, i: nat, gone: set<Record>)
      requires Pruned(was, i, gone, cur, prev) && cur !in gone
      ensures Pruned(was, i + 1, gone, cur.next, cur)
    {
      WithoutSnoc(was, i, gone);
      var k := |Without(was[..i], gone)|;
      assert Records[k] == was[i];
      assert was[i..] == [was[i]] + was[i + 1..];
      assert k + 1 < |Records| ==> Records[k + 1] == was[i + 1];
    }

    /** One turn of a removal loop. */
    method Turn(removal: Removal, cur: Record, prev: Record?, ghost was: seq<Record>, ghost i: nat,
                ghost gone: set<Record>)
      returns (following: Record?, last: Record?)
      requires Pruned(was, i, gone, cur, prev) && Selects(was, removal, gone)
      modifies this, (if prev == null then {} else {prev})`next
      ensures Pruned(was, i + 1, gone, following, last) && Selects(was, removal, gone)
    {
      if cur.Doomed(removal) {
        following := DropOne(cur, prev, was, i, gone);
        last := prev;
      } else {
        KeepOne(cur, prev, was, i, gone);
        last := cur;
        following := cur.next;
      }
    }

    lemma SweepStarts(gone: set<Record>)
      requires Linked(head, Records)
      ensures Pruned(Records, 0, gone, head, null)
    {
      assert Records[..0] == [] && Records[0..] == Records;
    }

    lemma SweepEnds(was: seq<Record>, i: nat, gone: set<Record>, prev: Record?)
      requires Pruned(was, i, gone, null, prev)
      ensures Linked(head, Records) && Records == Without(was, gone)
    {
      assert i == |was|;
      assert was[..|was|] == was && Without(was, gone) + [] == Without(was, gone);
    }

    /** The removal loop. */
    method Sweep(removal: Removal, ghost gone: set<Record>)
      requires Linked(head, Records) && Selects(Records, removal, gone)
      modifies this, Records`next
      ensures Linked(head, Records) && Records == Without(old(Records), gone)
    {
      ghost var was := Records;
      SweepStarts(gone);
      ghost var i := 0;
      var cur, prev := head, null;
      while cur != null
        invariant Pruned(was, i, gone, cur, prev) && Selects(was, removal, gone)
        decreases |was| - i
      {
        cur, prev := Turn(removal, cur, prev, was, i, gone);
        i := i + 1;
      }
      SweepEnds(was, i, gone, prev);
    }

    /** ID_DELETE: all records with the key go, the others keep their order. */
    method Delete(ip: string, serverPort: int)
      requires Valid()
      modifies this, Records`next
      ensures Valid()
      ensures Records == Without(old(Records), set r | r in old(Records) && r.HasKey(ip, serverPort))
    {
      ghost var gone := set r | r in Records && r.HasKey(ip, serverPort);
      WithoutKeepsKeysApart(Records, gone);
      Sweep(ByKey(ip, serverPort), gone);
    }

    /** ID_REMOVE_OLD: all records last updated before the given time go. */
    method RemoveOld(searchTime: int)
      requires Valid()
      modifies this, Records`next
      ensures Valid()
      ensures Records == Without(old(Records), old(set r | r in Records && r.lastUpdate < searchTime))
    {
      ghost var gone := set r | r in Records && r.lastUpdate < searchTime;
      WithoutKeepsKeysApart(Records, gone);
      Sweep(OlderThan(searchTime), gone);
    }
  }
}
