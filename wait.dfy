/** `process_wait` (process.c): the parent's search of its child list for
    the child it waits for, and what it returns. A child record holds the
    child's pid and `is_exited`, which is -1 while the child runs and the
    status the child left when it exited (`process_exit` writes 0 there).
    Blocking until the child exits is not modelled: the status the child
    writes into its record before the parent is woken is a parameter. */
module Wait {
  import opened Wrappers

  /** `is_exited` of a child that has not exited. */
  const RUNNING: int := -1

  /** What `process_wait` returns when there is nothing to wait for. */
  const WAIT_FAILED: int := -1

  /** `struct child`: a child's pid and its exit state. */
  datatype Child = Child(pid: int, isExited: int)

  /** No two records are for the same child. */
  ghost predicate DistinctPids(children: seq<Child>) {
    forall i, j :: 0 <= i < j < |children| ==> children[i].pid != children[j].pid
  }

  /** The position of the first record for pid: the one the list walk stops at. */
  function ChildIndex(children: seq<Child>, pid: int): (r: Option<nat>)
    ensures r.Some? ==> r.value < |children| && children[r.value].pid == pid
    ensures r.Some? ==> forall j :: 0 <= j < r.value ==> children[j].pid != pid
    ensures r.None? <==> forall j :: 0 <= j < |children| ==> children[j].pid != pid
  {
    if children == [] then None
    else if children[0].pid == pid then Some(0)
    else match ChildIndex(children[1..], pid)
      case None => None
      case Some(i) => Some(i + 1)
  }

  /** The status `process_wait` returns as written: -1 when pid is not a
      child; the recorded status when the child has exited; otherwise, after
      blocking, 0 if the child then left 0 in its record and -1 if not. */
  function WaitStatus(children: seq<Child>, pid: int, wokenWith: int): (r: int)
    ensures r == WAIT_FAILED || r == 0 || exists j :: 0 <= j < |children| && children[j].pid == pid && children[j].isExited == r
    ensures (forall j :: 0 <= j < |children| ==> children[j].pid != pid) ==> r == WAIT_FAILED
    ensures Blocks(children, pid) ==> (r == 0 <==> wokenWith == 0)
  {
    match ChildIndex(children, pid)
    case None => WAIT_FAILED
    case Some(i) =>
      if children[i].isExited != RUNNING then children[i].isExited
      else if wokenWith != 0 then WAIT_FAILED
      else 0
  }

  /** Whether `process_wait` blocks: pid is a child that has not exited. */
  predicate Blocks(children: seq<Child>, pid: int) {
    var r := ChildIndex(children, pid);
    r.Some? && children[r.value].isExited == RUNNING
  }

  /** The records without the one at i. */
  function RemoveAt(children: seq<Child>, i: nat): (r: seq<Child>)
    requires i < |children|
    ensures |r| == |children| - 1
    ensures forall j :: 0 <= j < i ==> r[j] == children[j]
    ensures forall j :: i <= j < |r| ==> r[j] == children[j + 1]
  {
    children[..i] + children[i + 1..]
  }

  /** The records after a wait on pid that consumes the child's record. */
  function Consume(children: seq<Child>, pid: int): (r: seq<Child>) {
    match ChildIndex(children, pid)
    case None => children
    case Some(i) => RemoveAt(children, i)
  }

  /** The records when a parent that blocked on pid resumes: the child has
      run `process_exit`, which writes its status into every record of the
      parent's list that has its pid. A wait that does not block leaves the
      records as they are. The pids and the order of the records never change. */
  function AfterWait(children: seq<Child>, pid: int, wokenWith: int): (r: seq<Child>)
    ensures |r| == |children|
    ensures forall j :: 0 <= j < |r| ==> r[j].pid == children[j].pid
    ensures forall j :: 0 <= j < |r| && children[j].pid != pid ==> r[j] == children[j]
    ensures !Blocks(children, pid) ==> r == children
    ensures Blocks(children, pid) ==>
      forall j :: 0 <= j < |r| && children[j].pid == pid ==> r[j].isExited == wokenWith
  {
    if Blocks(children, pid) then
      seq(|children|, j requires 0 <= j < |children| =>
        if children[j].pid == pid then Child(pid, wokenWith) else children[j])
    else children
  }

  /** The state of the waiting thread: its child list and `wait_tid`, the
      child it is blocked on. */
  class Thread {
    var childList: seq<Child>
    var waitTid: int

    ghost predicate Valid()
      reads this
    {
      DistinctPids(childList)
    }

    constructor (children: seq<Child>)
      requires DistinctPids(children)
      ensures Valid() && childList == children && waitTid == 0
    {
      childList := children;
      waitTid := 0;
    }

    /** The loop of `process_wait`: walks the child list from the front
        and stops at the first record for pid. */
    method FindChild(pid: int) returns (found: bool, i: nat)
      ensures found <==> exists j :: 0 <= j < |childList| && childList[j].pid == pid
      ensures found ==> i < |childList| && childList[i].pid == pid
      ensures found ==> forall j :: 0 <= j < i ==> childList[j].pid != pid
    {
      found := false;
      i := 0;
      while i < |childList|
        invariant i <= |childList|
        invariant forall j :: 0 <= j < i ==> childList[j].pid != pid
      {
        if childList[i].pid == pid {
          found := true;
          return;
        }
        i := i + 1;
      }
    }

    /** `process_wait (pid)` as written. When it blocks it sets `wait_tid`
        to pid; wokenWith is the status the child writes into its record
        before the parent is woken, and the parent then reads it from the
        record. No record is ever removed. */
    method ProcessWait(pid: int, wokenWith: int) returns (status: int)
      modifies this
      ensures status == WaitStatus(old(childList), pid, wokenWith)
      ensures childList == AfterWait(old(childList), pid, wokenWith)
      ensures waitTid == if Blocks(old(childList), pid) then pid else old(waitTid)
      ensures old(Valid()) ==> Valid()
    {
      if Valid() {
        AfterWaitRecord(childList, pid, wokenWith);
      }
      var found, i := FindChild(pid);
      if !found {
        return WAIT_FAILED;
      } else if childList[i].isExited != RUNNING {
        return childList[i].isExited;
      } else {
        waitTid := pid;
        childList := AfterWait(childList, pid, wokenWith);
        if childList[i].isExited != 0 {
          return WAIT_FAILED;
        }
        return 0;
      }
    }

    /** `process_wait (pid)` as its comment promises: the record of the
        child waited for is consumed, whether it had already exited or the
        wait blocked, so a second wait for it fails at once. */
    method ProcessWaitOnce(pid: int, wokenWith: int) returns (status: int)
      requires Valid()
      modifies this
      ensures Valid()
      ensures status == WaitStatus(old(childList), pid, wokenWith)
      ensures childList == Consume(old(childList), pid)
      ensures waitTid == if Blocks(old(childList), pid) then pid else old(waitTid)
    {
      var found, i := FindChild(pid);
      if !found {
        return WAIT_FAILED;
      }
      ghost var before := childList;
      if childList[i].isExited != RUNNING {
        status := childList[i].isExited;
      } else {
        waitTid := pid;
        childList := AfterWait(childList, pid, wokenWith);
        status := if childList[i].isExited != 0 then WAIT_FAILED else 0;
      }
      ConsumeDistinct(before, pid);
      WrittenRecordConsumed(before, pid, wokenWith, i);
      childList := RemoveAt(childList, i);
    }
  }

  // ---------------------------------------------------------------------
  // Properties

  /** Waiting for a pid that is not among the children fails without blocking. */
  lemma WaitNotChild(children: seq<Child>, pid: int, wokenWith: int)
    requires forall j :: 0 <= j < |children| ==> children[j].pid != pid
    ensures WaitStatus(children, pid, wokenWith) == WAIT_FAILED && !Blocks(children, pid)
  {
  }

  /** Waiting for a child that has exited returns, without blocking, the
      status in its record. */
  lemma WaitExited(children: seq<Child>, pid: int, wokenWith: int, i: nat)
    requires DistinctPids(children) && i < |children| && children[i].pid == pid
    requires children[i].isExited != RUNNING
    ensures WaitStatus(children, pid, wokenWith) == children[i].isExited && !Blocks(children, pid)
  {
    var r := ChildIndex(children, pid);
    assert r.value == i;
  }

  /** Waiting for a child that runs blocks, and returns 0 exactly when the
      child leaves 0 as its status. */
  lemma WaitRunning(children: seq<Child>, pid: int, wokenWith: int, i: nat)
    requires DistinctPids(children) && i < |children| && children[i].pid == pid
    requires children[i].isExited == RUNNING
    ensures Blocks(children, pid)
    ensures WaitStatus(children, pid, wokenWith) == if wokenWith == 0 then 0 else WAIT_FAILED
  {
    var r := ChildIndex(children, pid);
    assert r.value == i;
  }

  /** Removing the record for pid after the child wrote its status into it
      leaves the same list as removing it before. */
  lemma WrittenRecordConsumed(children: seq<Child>, pid: int, wokenWith: int, i: nat)
    requires DistinctPids(children) && i < |children| && children[i].pid == pid
    ensures RemoveAt(AfterWait(children, pid, wokenWith), i) == RemoveAt(children, i)
  {
    var w := AfterWait(children, pid, wokenWith);
    forall j | 0 <= j < |children| && j != i
      ensures w[j] == children[j]
    {
      if j < i {
        assert children[j].pid != children[i].pid;
      } else {
        assert children[i].pid != children[j].pid;
      }
    }
    assert RemoveAt(w, i) == RemoveAt(children, i);
  }

  /** The child's write keeps the pids distinct and the first record for
      each pid where it was; once woken with a status other than -1, the
      record reads as exited with that status. */
  lemma AfterWaitRecord(children: seq<Child>, pid: int, wokenWith: int)
    requires DistinctPids(children)
    ensures DistinctPids(AfterWait(children, pid, wokenWith))
    ensures forall q :: ChildIndex(AfterWait(children, pid, wokenWith), q) == ChildIndex(children, q)
  {
    var w := AfterWait(children, pid, wokenWith);
    forall q
      ensures ChildIndex(w, q) == ChildIndex(children, q)
    {
      SamePidsSameIndex(children, w, q);
    }
  }

  /** The walk of the list sees only pids. */
  lemma {:induction false} SamePidsSameIndex(a: seq<Child>, b: seq<Child>, q: int)
    requires |a| == |b| && forall j :: 0 <= j < |a| ==> a[j].pid == b[j].pid
    ensures ChildIndex(a, q) == ChildIndex(b, q)
    decreases |a|
  {
    if a != [] && a[0].pid != q {
      SamePidsSameIndex(a[1..], b[1..], q);
    }
  }

  /** As written, a wait that blocked leaves the child's exit status in its
      record, so a second wait returns that status at once, without blocking
      and without looking at how it is woken. Since `process_exit` writes 0,
      both waits return 0. */
  lemma WaitAgain(children: seq<Child>, pid: int, wokenWith: int, wokenAgain: int)
    requires DistinctPids(children) && Blocks(children, pid) && wokenWith != RUNNING
    ensures var after := AfterWait(children, pid, wokenWith);
      && !Blocks(after, pid)
      && WaitStatus(after, pid, wokenAgain) == wokenWith
      && (wokenWith == 0 ==> WaitStatus(children, pid, wokenWith) == 0 == WaitStatus(after, pid, wokenAgain))
  {
    AfterWaitRecord(children, pid, wokenWith);
  }

  /** Consuming a record keeps the pids distinct, removes pid from the list
      and leaves every other child's record in place. */
  lemma ConsumeDistinct(children: seq<Child>, pid: int)
    requires DistinctPids(children)
    ensures DistinctPids(Consume(children, pid))
    ensures forall j :: 0 <= j < |Consume(children, pid)| ==> Consume(children, pid)[j].pid != pid
    ensures forall c :: c in children && c.pid != pid ==> c in Consume(children, pid)
  {
    var r := ChildIndex(children, pid);
    if r.Some? {
      var i := r.value;
      var rest := RemoveAt(children, i);
      forall a, b | 0 <= a < b < |rest|
        ensures rest[a].pid != rest[b].pid
      {
        var a' := if a < i then a else a + 1;
        var b' := if b < i then b else b + 1;
        assert rest[a] == children[a'] && rest[b] == children[b'];
      }
      forall j | 0 <= j < |rest|
        ensures rest[j].pid != pid
      {
        var j' := if j < i then j else j + 1;
        assert rest[j] == children[j'];
      }
      forall c | c in children && c.pid != pid
        ensures c in rest
      {
        var k :| 0 <= k < |children| && children[k] == c;
        assert k != i;
        if k < i {
          assert rest[k] == c;
        } else {
          assert rest[k - 1] == c;
        }
      }
    }
  }

  /** With the record consumed, a second wait for the same child fails at
      once, and waits for the other children return what they did before. */
  lemma WaitOnce(children: seq<Child>, pid: int, wokenWith: int, other: int, otherWokenWith: int)
    requires DistinctPids(children)
    ensures WaitStatus(Consume(children, pid), pid, wokenWith) == WAIT_FAILED
    ensures !Blocks(Consume(children, pid), pid)
    ensures other != pid ==>
      WaitStatus(Consume(children, pid), other, otherWokenWith) == WaitStatus(children, other, otherWokenWith)
  {
    ConsumeDistinct(children, pid);
    var rest := Consume(children, pid);
    if other != pid {
      var r := ChildIndex(children, other);
      if r.Some? {
        var c := children[r.value];
        assert c in children;
        var k :| 0 <= k < |rest| && rest[k] == c;
        WaitSame(children, rest, other, otherWokenWith, r.value, k);
      } else {
        forall j | 0 <= j < |rest|
          ensures rest[j].pid != other
        {
          var q := ChildIndex(children, pid);
          if q.Some? {
            var j' := if j < q.value then j else j + 1;
            assert rest[j] == children[j'];
          }
        }
      }
    }
  }

  /** Two distinct-pid lists with the same record for pid give the same wait. */
  lemma WaitSame(a: seq<Child>, b: seq<Child>, pid: int, wokenWith: int, i: nat, k: nat)
    requires DistinctPids(a) && DistinctPids(b)
    requires i < |a| && k < |b| && a[i] == b[k] && a[i].pid == pid
    ensures WaitStatus(a, pid, wokenWith) == WaitStatus(b, pid, wokenWith)
  {
    var ra, rb := ChildIndex(a, pid), ChildIndex(b, pid);
    assert ra.value == i;
    assert rb.value == k;
  }

  /** As written, a child that has exited with status 0 can be waited for
      twice: the first wait does not block and leaves the list as it was, so
      the second wait runs on the same list and returns 0 again, where the
      comment of `process_wait` promises -1. Once the record is consumed, the
      second wait returns -1. */
  lemma WaitTwiceExample()
    ensures var children := [Child(5, 0)];
      && WaitStatus(children, 5, 0) == 0
      && AfterWait(children, 5, 0) == children
      && WaitStatus(AfterWait(children, 5, 0), 5, 0) == 0
      && WaitStatus(Consume(children, 5), 5, 0) == WAIT_FAILED
  {
    var children := [Child(5, 0)];
    assert ChildIndex(children, 5) == Some(0);
    WaitOnce(children, 5, 0, 5, 0);
  }
}
