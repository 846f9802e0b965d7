/**
 The screen messages of screen_msg_buffer.c: a fixed pool of records, threaded
 into one doubly linked list per priority.
 */
module MessageQueue {
  import opened CBytes
  import opened Sequences

  const MAX_MSGS: nat := 40
  const MAX_MSG_LEN: nat := 800
  const MAX_MSG_PRIORITY: nat := 3
  const LOWEST_MSG_PRIORITY: nat := 2
  const SCROLL_SPEED_INTERVAL: int := 100

  /** How a call ends; with `Fault` it accesses memory through null or behind an array. */
  datatype Outcome = Done | AssertionFailed | Fault

  class Msg {
    var used: bool
    var active: bool
    var cycles_left: int
    var display_time_ms: nat
    var priority: nat
    var message: cstring
    var previous: Msg?
    var next: Msg?

    /** The same message; its links may have changed. */
    twostate predicate Kept()
      reads this
    {
      && used == old(used) && message == old(message)
      && cycles_left == old(cycles_left) && priority == old(priority)
    }
  }

  // ----- a doubly linked list -------------------------------------------------------------

  ghost predicate Distinct(ns: seq<Msg>) { forall i, j | 0 <= i < j < |ns| :: ns[i] != ns[j] }

  ghost function Nodes(ns: seq<Msg>): set<Msg> { set n | n in ns }

  function First(ns: seq<Msg>): Msg? { if ns == [] then null else ns[0] }

  function After(ns: seq<Msg>, i: nat): Msg? { if i + 1 < |ns| then ns[i + 1] else null }

  function Before(ns: seq<Msg>, i: nat): Msg? { if 0 < i <= |ns| then ns[i - 1] else null }

  /** The nodes are linked in this order, with null at both ends. */
  ghost predicate Chained(ns: seq<Msg>)
    reads ns
  {
    forall i | 0 <= i < |ns| :: ns[i].next == After(ns, i) && ns[i].previous == Before(ns, i)
  }

  /** The queue that starts at `head`: its messages are in use and carry its priority. */
  ghost predicate Queue(head: Msg?, ns: seq<Msg>, p: nat)
    reads ns
  {
    head == First(ns) && Distinct(ns) && Chained(ns) && forall m | m in ns :: m.used && m.priority == p
  }

  lemma LinksAt(ns: seq<Msg>, k: nat)
    requires Chained(ns) && k < |ns|
    ensures ns[k].next == After(ns, k) && ns[k].previous == Before(ns, k)
  {
  }

  lemma SingleChain(msg: Msg)
    requires msg.next == null && msg.previous == null
    ensures Chained([msg])
  {
  }

  datatype Line = Line(head: Msg?, ns: seq<Msg>, p: nat)

  /** Other fields than the links, the priority and `used` do not matter to a queue. */
  twostate lemma QueueKept(l: Line)
    requires old(Queue(l.head, l.ns, l.p))
    requires forall m | m in l.ns :: m.next == old(m.next) && m.previous == old(m.previous)
    requires forall m | m in l.ns :: m.used == old(m.used) && m.priority == old(m.priority)
    ensures Queue(l.head, l.ns, l.p)
  {
    forall i | 0 <= i < |l.ns| ensures l.ns[i].next == After(l.ns, i) && l.ns[i].previous == Before(l.ns, i) {
      assert l.ns[i] in l.ns && old(l.ns[i].next) == After(l.ns, i) && old(l.ns[i].previous) == Before(l.ns, i);
    }
  }

  /** `append_queue` on one list: the end is found by walking. */
  method AppendNode(head: Msg?, msg: Msg, ghost ns: seq<Msg>, ghost p: nat) returns (newHead: Msg)
    requires Queue(head, ns, p) && msg !in ns && msg.used && msg.priority == p
    modifies Nodes(ns)`next, msg`next, msg`previous
    ensures Queue(newHead, ns + [msg], p)
  {
    hide Chained;
    if head == null {
      newHead := msg;
      msg.previous := null;
      msg.next := null;
      SingleChain(msg);
      assert ns + [msg] == [msg];
    } else {
      var last := LastNode(head, ns);
      last.next := msg;
      msg.previous := last;
      msg.next := null;
      newHead := head;
      Appended(Joint(ns, |ns|, msg));
    }
  }

  /** The walk to the end of a list. */
  method LastNode(head: Msg, ghost ns: seq<Msg>) returns (last: Msg)
    requires ns != [] && head == First(ns) && Chained(ns)
    ensures last == ns[|ns| - 1]
  {
    hide Chained;
    last := head;
    ghost var k := 0;
    LinksAt(ns, k);
    while last.next != null
      invariant 0 <= k < |ns| && last == ns[k] && last.next == After(ns, k)
      decreases |ns| - k
    {
      last := last.next;
      k := k + 1;
      LinksAt(ns, k);
    }
  }

  /** A list, a place in it and a node that goes there. */
  datatype Joint = Joint(ns: seq<Msg>, k: nat, msg: Msg)

  twostate lemma Appended(j: Joint)
    requires old(Chained(j.ns)) && j.ns != [] && j.msg !in j.ns && Distinct(j.ns)
    requires forall i | 0 <= i < |j.ns| :: j.ns[i].next == if i + 1 == |j.ns| then j.msg else old(j.ns[i].next)
    requires forall i | 0 <= i < |j.ns| :: j.ns[i].previous == old(j.ns[i].previous)
    requires j.msg.next == null && j.msg.previous == j.ns[|j.ns| - 1]
    ensures Chained(j.ns + [j.msg])
  {
    var ns, ms := j.ns, j.ns + [j.msg];
    forall i | 0 <= i < |ms| ensures ms[i].next == After(ms, i) && ms[i].previous == Before(ms, i) {
      assert i < |ns| ==> old(ns[i].next) == After(ns, i) && old(ns[i].previous) == Before(ns, i);
    }
  }

  /** `insert_queue_next` on one list: `msg` follows `current`, which is at `k`. */
  method InsertNodeAfter(current: Msg, msg: Msg, ghost head: Msg?, ghost ns: seq<Msg>, ghost p: nat, ghost k: nat)
    requires Queue(head, ns, p) && k < |ns| && current == ns[k] && msg !in ns && msg.used
    modifies Nodes(ns)`next, Nodes(ns)`previous, msg`next, msg`previous, msg`priority
    ensures Queue(head, Insert(ns, k + 1, msg), p) && msg.priority == p
  {
    hide Insert, Chained;
    LinksAt(ns, k);
    assert current in ns;
    msg.next := current.next;
    current.next := msg;
    msg.previous := current;
    if msg.next != null {
      msg.next.previous := msg;
    }
    msg.priority := current.priority;
    Inserted(Joint(ns, k + 1, msg));
    InsertMembers(Joint(ns, k + 1, msg));
    ghost var ms := Insert(ns, k + 1, msg);
    assert forall m | m in ns :: m.used;
    assert forall m | m in ns :: m.priority == p;
    assert forall m | m in ms :: m.used;
    assert forall m | m in ms :: m.priority == p;
  }

  lemma InsertMembers(j: Joint)
    requires 0 < j.k <= |j.ns| && Distinct(j.ns) && j.msg !in j.ns
    ensures var ms := Insert(j.ns, j.k, j.msg);
            && Distinct(ms) && First(ms) == First(j.ns) && j.msg in ms
            && (forall m | m in ms :: m in j.ns || m == j.msg) && (forall m | m in j.ns :: m in ms)
  {
    var ms := Insert(j.ns, j.k, j.msg);
    assert ms[j.k] == j.msg;
    forall m | m in j.ns ensures m in ms {
      var i :| 0 <= i < |j.ns| && j.ns[i] == m;
      assert ms[if i < j.k then i else i + 1] == m;
    }
  }

  twostate lemma Inserted(j: Joint)
    requires old(Chained(j.ns)) && 0 < j.k <= |j.ns|
    requires forall i | 0 <= i < |j.ns| :: j.ns[i].next == if i + 1 == j.k then j.msg else old(j.ns[i].next)
    requires forall i | 0 <= i < |j.ns| :: j.ns[i].previous == if i == j.k then j.msg else old(j.ns[i].previous)
    requires j.msg.next == old(j.ns[j.k - 1].next) && j.msg.previous == j.ns[j.k - 1]
    ensures Chained(Insert(j.ns, j.k, j.msg))
  {
    InsertedNext(j);
    InsertedPrevious(j);
  }

  twostate lemma InsertedNext(j: Joint)
    requires old(Chained(j.ns)) && 0 < j.k <= |j.ns|
    requires forall i | 0 <= i < |j.ns| :: j.ns[i].next == if i + 1 == j.k then j.msg else old(j.ns[i].next)
    requires j.msg.next == old(j.ns[j.k - 1].next)
    ensures var ms := Insert(j.ns, j.k, j.msg); forall i | 0 <= i < |ms| :: ms[i].next == After(ms, i)
  {
    hide Insert, Before;
    var ns, k, ms := j.ns, j.k, Insert(j.ns, j.k, j.msg);
    InsertIndex(ns, k, j.msg);
    forall i | 0 <= i < |ms| ensures ms[i].next == After(ms, i) {
      var h := if i < k then i else i - 1;
      assert old(ns[h].next) == After(ns, h);
    }
  }

  twostate lemma InsertedPrevious(j: Joint)
    requires old(Chained(j.ns)) && 0 < j.k <= |j.ns|
    requires forall i | 0 <= i < |j.ns| :: j.ns[i].previous == if i == j.k then j.msg else old(j.ns[i].previous)
    requires j.msg.previous == j.ns[j.k - 1]
    ensures var ms := Insert(j.ns, j.k, j.msg); forall i | 0 <= i < |ms| :: ms[i].previous == Before(ms, i)
  {
    hide Insert, After;
    var ns, k, ms := j.ns, j.k, Insert(j.ns, j.k, j.msg);
    InsertIndex(ns, k, j.msg);
    forall i | 0 <= i < |ms| ensures ms[i].previous == Before(ms, i) {
      if i != k {
        var h := if i < k then i else i - 1;
        assert old(ns[h].previous) == Before(ns, h);
      }
    }
  }

  /** `pop_queue_msg` on one list. */
  method PopNode(head: Msg?, msg: Msg, ghost ns: seq<Msg>, ghost p: nat, ghost k: nat) returns (newHead: Msg?)
    requires Queue(head, ns, p) && k < |ns| && msg == ns[k]
    modifies Nodes(ns)`next, Nodes(ns)`previous
    ensures Queue(newHead, Remove(ns, k), p) && msg !in Remove(ns, k) && msg.next == null && msg.previous == null
  {
    hide Remove, Chained;
    LinksAt(ns, k);
    newHead := head;
    if head == msg {
      newHead := msg.next;
    }
    if msg.previous != null {
      msg.previous.next := msg.next;
    }
    if msg.next != null {
      msg.next.previous := msg.previous;
    }
    msg.next := null;
    msg.previous := null;
    Removed(Joint(ns, k, msg));
    RemoveMembers(Joint(ns, k, msg));
  }

  lemma RemoveMembers(j: Joint)
    requires j.k < |j.ns| && Distinct(j.ns) && j.msg == j.ns[j.k]
    ensures var ms := Remove(j.ns, j.k);
            && Distinct(ms) && j.msg !in ms && (forall m | m in j.ns :: m in ms || m == j.msg)
            && (forall m | m in ms :: m in j.ns)
            && First(ms) == if j.k == 0 then After(j.ns, 0) else First(j.ns)
  {
    var ms := Remove(j.ns, j.k);
    forall m | m in j.ns ensures m in ms || m == j.msg {
      var i :| 0 <= i < |j.ns| && j.ns[i] == m;
      assert i < j.k ==> ms[i] == m;
      assert i > j.k ==> ms[i - 1] == m;
    }
  }

  twostate lemma Removed(j: Joint)
    requires old(Chained(j.ns)) && j.k < |j.ns|
    requires forall i | 0 <= i < |j.ns| && i != j.k ::
      j.ns[i].next == if i + 1 == j.k then old(j.ns[j.k].next) else old(j.ns[i].next)
    requires forall i | 0 <= i < |j.ns| && i != j.k ::
      j.ns[i].previous == if i == j.k + 1 then old(j.ns[j.k].previous) else old(j.ns[i].previous)
    ensures Chained(Remove(j.ns, j.k))
  {
    RemovedNext(j);
    RemovedPrevious(j);
  }

  twostate lemma RemovedNext(j: Joint)
    requires old(Chained(j.ns)) && j.k < |j.ns|
    requires forall i | 0 <= i < |j.ns| && i != j.k ::
      j.ns[i].next == if i + 1 == j.k then old(j.ns[j.k].next) else old(j.ns[i].next)
    ensures var ms := Remove(j.ns, j.k); forall i | 0 <= i < |ms| :: ms[i].next == After(ms, i)
  {
    hide Remove, Before;
    var ns, k, ms := j.ns, j.k, Remove(j.ns, j.k);
    RemoveIndex(ns, k);
    forall i | 0 <= i < |ms| ensures ms[i].next == After(ms, i) {
      var h := if i < k then i else i + 1;
      assert old(ns[h].next) == After(ns, h) && old(ns[k].next) == After(ns, k);
    }
  }

  twostate lemma RemovedPrevious(j: Joint)
    requires old(Chained(j.ns)) && j.k < |j.ns|
    requires forall i | 0 <= i < |j.ns| && i != j.k ::
      j.ns[i].previous == if i == j.k + 1 then old(j.ns[j.k].previous) else old(j.ns[i].previous)
    ensures var ms := Remove(j.ns, j.k); forall i | 0 <= i < |ms| :: ms[i].previous == Before(ms, i)
  {
    hide Remove, After;
    var ns, k, ms := j.ns, j.k, Remove(j.ns, j.k);
    RemoveIndex(ns, k);
    forall i | 0 <= i < |ms| ensures ms[i].previous == Before(ms, i) {
      var h := if i < k then i else i + 1;
      assert old(ns[h].previous) == Before(ns, h) && old(ns[k].previous) == Before(ns, k);
    }
  }

  function IndexOf(ns: seq<Msg>, m: Msg): (k: nat)
    ensures if m in ns then k < |ns| && ns[k] == m else k == |ns|
  {
    if ns == [] || ns[0] == m then 0 else 1 + IndexOf(ns[1..], m)
  }

  /** Queue `p` with `m` at the end. */
  function WithLast(ls: seq<seq<Msg>>, p: nat, m: Msg): seq<seq<Msg>> {
    if p < |ls| then ls[p := ls[p] + [m]] else ls
  }

  /** Queue `p` with `m` behind `c`. */
  function WithBehind(ls: seq<seq<Msg>>, p: nat, c: Msg, m: Msg): seq<seq<Msg>> {
    if p < |ls| && c in ls[p] then ls[p := Insert(ls[p], IndexOf(ls[p], c) + 1, m)] else ls
  }

  /** Queue `p` without `m`. */
  function Without(ls: seq<seq<Msg>>, p: nat, m: Msg): seq<seq<Msg>> {
    if p < |ls| && m in ls[p] then ls[p := Remove(ls[p], IndexOf(ls[p], m))] else ls
  }

  /** The message behind `c` in queue `p`, around the end. */
  function Behind(ls: seq<seq<Msg>>, p: nat, c: Msg): Msg {
    if p < |ls| && c in ls[p] then
      var k := IndexOf(ls[p], c) + 1;
      ls[p][if k < |ls[p]| then k else 0]
    else c
  }

  /** The first message of the first queue that is not empty. */
  function Foremost(ls: seq<seq<Msg>>): Msg? {
    if ls == [] then null else if ls[0] != [] then ls[0][0] else Foremost(ls[1..])
  }

  // ----- the pool -------------------------------------------------------------------------

  class ScreenMessages {
    const message_buf: seq<Msg>
    var message_queues: seq<Msg?>
    var current_disp_msg: Msg?
    var msg_count: nat
    var time_left_ms: int
    var scrolling: bool
    /** The messages of each queue, in order. */
    ghost var lists: seq<seq<Msg>>

    /** The lists agree with the pointers, and hold every message in use but `x`. */
    ghost predicate ValidBut(x: Msg?)
      reads this`message_queues, this`lists, this`msg_count, message_buf
    {
      && |message_buf| == MAX_MSGS && Distinct(message_buf) && msg_count < 256
      && |message_queues| == MAX_MSG_PRIORITY && InPool()
      && (forall p | 0 <= p < MAX_MSG_PRIORITY :: Queue(message_queues[p], lists[p], p))
      && (forall m | m in message_buf && m.used && m != x :: Listed(m))
      && (x != null ==> forall p | 0 <= p < MAX_MSG_PRIORITY :: x !in lists[p])
    }

    /** The message on the screen is in use. */
    ghost predicate CurrentInUse()
      reads this`current_disp_msg, message_buf
    {
      current_disp_msg != null ==> current_disp_msg in message_buf && current_disp_msg.used
    }

    ghost predicate InPool()
      reads this`lists
    {
      |lists| == MAX_MSG_PRIORITY && forall p, i | 0 <= p < MAX_MSG_PRIORITY && 0 <= i < |lists[p]| ::
        lists[p][i] in message_buf
    }

    ghost predicate Listed(m: Msg)
      requires |lists| == MAX_MSG_PRIORITY
      reads this`lists, m
    {
      m.priority < MAX_MSG_PRIORITY && m in lists[m.priority]
    }

    /** Disjoint lists of the messages in use, each carrying the priority of its list. */
    ghost predicate Valid()
      reads this, message_buf
    {
      ValidBut(null) && CurrentInUse()
    }

    /** All records are free. */
    constructor ()
      ensures Valid() && fresh(message_buf) && lists == [[], [], []] && msg_count == 0
      ensures current_disp_msg == null && time_left_ms == -1 && !scrolling && Blank()
      ensures forall m | m in message_buf :: !m.used
    {
      message_queues := [null, null, null];
      current_disp_msg, msg_count := null, 0;
      time_left_ms, scrolling := -1, false;
      lists := [[], [], []];
      var pool: seq<Msg> := [];
      var i := 0;
      while i < MAX_MSGS
        invariant 0 <= i <= MAX_MSGS && |pool| == i && Distinct(pool) && fresh(pool)
        invariant forall m | m in pool :: !m.used
      {
        var m := new Msg;
        m.used := false;
        pool := pool + [m];
        i := i + 1;
      }
      message_buf := pool;
      new;
      NoneQueued();
    }

    /** `append_queue`. */
    method AppendQueue(msg: Msg)
      requires ValidBut(msg) && msg in message_buf && msg.used && msg.priority < MAX_MSG_PRIORITY
      modifies this`message_queues, this`msg_count, this`lists, Nodes(message_buf)`next, Nodes(message_buf)`previous
      ensures ValidBut(null) && lists == old(WithLast(lists, msg.priority, msg))
      ensures msg_count == (old(msg_count) + 1) % 256
    {
      hide Queue, Distinct, First;
      msg_count := (msg_count + 1) % 256;
      var p := msg.priority;
      ApartFrom(msg, p);
      var head := AppendNode(message_queues[p], msg, lists[p], p);
      message_queues := message_queues[p := head];
      lists := lists[p := lists[p] + [msg]];
    }

    /** No message is in two queues, and `x` is in none. */
    lemma ApartFrom(x: Msg?, p: nat)
      requires ValidBut(x) && p < MAX_MSG_PRIORITY
      ensures forall q | 0 <= q < MAX_MSG_PRIORITY && q != p ::
        x !in lists[q] && forall m | m in lists[p] :: m !in lists[q]
      ensures forall m | m in lists[p] :: m in message_buf
    {
      hide Chained, Distinct, First;
    }

    lemma QueueDistinct(x: Msg?, p: nat)
      requires ValidBut(x) && p < MAX_MSG_PRIORITY
      ensures Distinct(lists[p])
    {
    }

    /** `insert_queue_next` while `current` is on the screen. */
    method InsertBehind(current: Msg, msg: Msg)
      requires ValidBut(msg) && msg in message_buf && msg.used
      requires current in message_buf && current.used && current != msg
      modifies this`lists, Nodes(message_buf)`next, Nodes(message_buf)`previous, msg`priority
      ensures ValidBut(null) && msg.priority == current.priority
      ensures lists == old(WithBehind(lists, current.priority, current, msg))
    {
      hide Queue, Distinct, First, Insert;
      ghost var p := current.priority;
      assert Listed(current);
      ghost var k := IndexOf(lists[p], current);
      ApartFrom(msg, p);
      QueueDistinct(msg, p);
      InsertMembers(Joint(lists[p], k + 1, msg));
      InsertNodeAfter(current, msg, message_queues[p], lists[p], p, k);
      lists := lists[p := Insert(lists[p], k + 1, msg)];
      assert forall i | 0 <= i < |lists[p]| :: lists[p][i] in lists[p];
    }

    /** `insert_queue_next`: behind the displayed message, or at the end of its own queue if none is displayed. */
    method InsertQueueNext(msg: Msg)
      requires ValidBut(msg) && msg in message_buf && msg.used && msg.priority < MAX_MSG_PRIORITY
      requires CurrentInUse() && msg != current_disp_msg
      modifies this`message_queues, this`msg_count, this`lists, Nodes(message_buf)`next, Nodes(message_buf)`previous
      modifies msg`priority
      ensures Valid()
      ensures current_disp_msg == null ==>
        lists == old(WithLast(lists, msg.priority, msg)) && msg.priority == old(msg.priority)
      ensures current_disp_msg != null ==>
        msg.priority == current_disp_msg.priority
        && lists == old(WithBehind(lists, current_disp_msg.priority, current_disp_msg, msg))
        && msg_count == old(msg_count)
    {
      hide ValidBut, WithLast, WithBehind;
      if current_disp_msg == null {
        AppendQueue(msg);
      } else {
        InsertBehind(current_disp_msg, msg);
      }
    }

    /** `pop_queue_msg`. */
    method PopQueueMsg(msg: Msg)
      requires ValidBut(null) && msg in message_buf && msg.used
      modifies this`message_queues, this`msg_count, this`lists, Nodes(message_buf)`next, Nodes(message_buf)`previous
      ensures ValidBut(msg) && lists == old(Without(lists, msg.priority, msg))
      ensures msg_count == (old(msg_count) + 255) % 256
    {
      hide Queue, Distinct, First, Remove;
      var p := msg.priority;
      assert Listed(msg);
      ghost var k := IndexOf(lists[p], msg);
      msg_count := (msg_count + 255) % 256;
      ApartFrom(null, p);
      QueueDistinct(null, p);
      RemoveMembers(Joint(lists[p], k, msg));
      var head := PopNode(message_queues[p], msg, lists[p], p, k);
      message_queues := message_queues[p := head];
      lists := lists[p := Remove(lists[p], k)];
      assert forall i | 0 <= i < |lists[p]| :: lists[p][i] in lists[p];
    }

    // ----- the screen and the public functions ----------------------------------------------

    /** `get_free_msg`: the first free record.  The assertions that stop the program give null. */
    method GetFreeMsg() returns (msg: Msg?)
      requires ValidBut(null)
      ensures msg == null <==> msg_count == MAX_MSGS || forall m | m in message_buf :: m.used
      ensures msg != null ==> msg in message_buf && !msg.used && ValidBut(msg)
    {
      hide Queue, Distinct;
      if (MAX_MSGS + 256 - msg_count) % 256 == 0 {
        return null;
      }
      var i := 0;
      while i < MAX_MSGS
        invariant 0 <= i <= MAX_MSGS && forall j | 0 <= j < i :: message_buf[j].used
      {
        if !message_buf[i].used {
          FreeUnlisted(message_buf[i]);
          return message_buf[i];
        }
        i := i + 1;
      }
      return null;
    }

    lemma FreeUnlisted(m: Msg)
      requires ValidBut(null) && !m.used
      ensures ValidBut(m)
    {
      hide Distinct, Chained;
    }

    /** The message to show next: the next of the queue on the screen, around its end. */
    ghost function Next(): Msg?
      requires Valid()
      reads this, message_buf
    {
      if current_disp_msg == null then Foremost(lists)
      else Behind(lists, current_disp_msg.priority, current_disp_msg)
    }

    /** `get_next_disp_msg`. */
    method GetNextDispMsg() returns (r: Msg?)
      requires Valid()
      ensures r == Next() && (r != null ==> r in message_buf && r.used)
    {
      hide ValidBut;
      if current_disp_msg == null {
        r := FirstQueued();
      } else {
        r := NextInQueue(current_disp_msg);
      }
    }

    /** With nothing on the screen: the first queue that has a message. */
    method FirstQueued() returns (r: Msg?)
      requires ValidBut(null)
      ensures r == Foremost(lists) && (r != null ==> r in message_buf && r.used)
    {
      hide Chained, Distinct, Listed;
      var priority := 0;
      assert lists[0..] == lists;
      while priority < MAX_MSG_PRIORITY
        invariant 0 <= priority <= MAX_MSG_PRIORITY && Foremost(lists[priority..]) == Foremost(lists)
      {
        HeadOf(priority);
        if message_queues[priority] != null {
          return message_queues[priority];
        }
        assert lists[priority..][1..] == lists[priority + 1..];
        priority := priority + 1;
      }
      return null;
    }

    lemma HeadOf(p: nat)
      requires ValidBut(null) && p < MAX_MSG_PRIORITY
      ensures message_queues[p] == First(lists[p])
      ensures lists[p] != [] ==> lists[p][0] in message_buf && lists[p][0].used
    {
      hide Chained, Distinct;
      assert Queue(message_queues[p], lists[p], p);
    }

    /** Behind the message on the screen; at the end of its queue the search starts with that queue again. */
    method NextInQueue(current: Msg) returns (r: Msg)
      requires ValidBut(null) && current in message_buf && current.used
      ensures r == Behind(lists, current.priority, current)
      ensures r in message_buf && r.used
    {
      hide ValidBut, Chained, Distinct, IndexOf;
      ListedInUse(current);
      ghost var p, k := current.priority, IndexOf(lists[current.priority], current);
      Neighbour(p, k);
      if current.next != null {
        return current.next;
      }
      HeadOf(p);
      QueueCount();
      var i, found: Msg? := 0, null;
      while i < MAX_MSG_PRIORITY && found == null
        invariant p < |lists| && lists[p] != [] && if found == null then i == 0 else found == lists[p][0]
        decreases MAX_MSG_PRIORITY - i
      {
        var priority_queue := (current.priority + i) % MAX_MSG_PRIORITY;
        found := message_queues[priority_queue];
        i := i + 1;
      }
      return found;
    }

    lemma QueueCount()
      requires ValidBut(null)
      ensures |message_queues| == MAX_MSG_PRIORITY == |lists|
    {
    }

    lemma ListedInUse(m: Msg)
      requires ValidBut(null) && m in message_buf && m.used
      ensures |lists| == MAX_MSG_PRIORITY && Listed(m)
    {
    }

    lemma Neighbour(p: nat, k: nat)
      requires ValidBut(null) && p < MAX_MSG_PRIORITY && k < |lists[p]|
      ensures lists[p][k].next == After(lists[p], k)
      ensures k + 1 < |lists[p]| ==> lists[p][k + 1] in message_buf && lists[p][k + 1].used
    {
      hide Distinct;
      assert Queue(message_queues[p], lists[p], p);
      assert k + 1 < |lists[p]| ==> lists[p][k + 1] in lists[p];
    }

    /** `disp_next_message`. */
    method DispNextMessage()
      requires Valid()
      modifies this`current_disp_msg, this`time_left_ms
      ensures Valid() && current_disp_msg == old(Next())
      ensures time_left_ms == if current_disp_msg == null then old(time_left_ms) else current_disp_msg.display_time_ms
    {
      hide Queue, Distinct, Listed, Next;
      current_disp_msg := GetNextDispMsg();
      if current_disp_msg != null {
        time_left_ms := current_disp_msg.display_time_ms;
      }
    }

    // ----- the public functions -------------------------------------------------------------

    /** The settings of a record taken from the pool. */
    method Configure(msg: Msg, text: cstring, cycles: int, priority: nat)
      requires ValidBut(msg) && msg in message_buf
      modifies msg`used, msg`active, msg`cycles_left, msg`display_time_ms, msg`priority, msg`message
      ensures ValidBut(msg) && msg.used && msg.priority == priority && msg.message == text && msg.cycles_left == cycles
    {
      hide Chained, Distinct;
      msg.used := true;
      msg.active := true;
      msg.cycles_left := cycles;
      msg.display_time_ms := 3000;
      msg.priority := priority;
      msg.message := text;
    }

    /** No record can be had: one of the two assertions of `get_free_msg` fails. */
    ghost predicate PoolExhausted()
      reads this`msg_count, message_buf
    {
      msg_count == MAX_MSGS || forall m | m in message_buf :: m.used
    }

    /** `new_message`: the record joins the end of its queue.  Null stands for a failed assertion. */
    method NewMessage(text: cstring, priority: nat) returns (msg: Msg?)
      requires Valid()
      modifies this`message_queues, this`msg_count, this`lists, Nodes(message_buf)
      ensures Valid() && unchanged(`current_disp_msg)
      ensures msg == null <==> |text| + 1 > MAX_MSG_LEN || priority > LOWEST_MSG_PRIORITY || old(PoolExhausted())
      ensures msg == null ==> unchanged(this) && unchanged(message_buf)
      ensures msg != null ==>
        msg in message_buf && old(!msg.used) && msg.used && msg.message == text && msg.cycles_left == -1
      ensures msg != null ==> lists == old(WithLast(lists, priority, msg)) && msg_count == (old(msg_count) + 1) % 256
      ensures forall m | m in message_buf && m != msg :: m.Kept()
    {
      hide ValidBut;
      if |text| + 1 > MAX_MSG_LEN || priority > LOWEST_MSG_PRIORITY {
        return null;
      }
      msg := GetFreeMsg();
      if msg != null {
        Configure(msg, text, -1, priority);
        AppendQueue(msg);
      }
    }

    /**
     `print_message_repeat`.  Unlike `new_message` it does not check the
     priority: a larger one is used as an index behind the queues, when the
     record is taken and the message is counted.
     */
    method PrintMessageRepeat(text: cstring, cycles: nat, priority: nat) returns (msg: Msg?, outcome: Outcome)
      requires Valid() && cycles < 256
      modifies this`message_queues, this`msg_count, this`lists, Nodes(message_buf)
      ensures unchanged(`current_disp_msg) && (msg == null <==> outcome == AssertionFailed)
      ensures outcome == AssertionFailed <==> |text| + 1 > MAX_MSG_LEN || old(PoolExhausted())
      ensures outcome == AssertionFailed ==> Valid() && unchanged(this) && unchanged(message_buf)
      ensures outcome == Fault <==> outcome != AssertionFailed && priority > LOWEST_MSG_PRIORITY
      ensures outcome == Fault ==> ValidBut(msg) && lists == old(lists)
      ensures msg != null ==> msg in message_buf && old(!msg.used) && msg.used && msg.message == text
      ensures msg != null ==> msg.cycles_left == (if cycles < 128 then cycles else cycles - 256)
      ensures outcome == Done ==> Valid() && lists == old(WithLast(lists, priority, msg))
      ensures msg != null ==> msg_count == (old(msg_count) + 1) % 256
      ensures forall m | m in message_buf && m != msg :: m.Kept()
    {
      hide ValidBut;
      msg, outcome := null, AssertionFailed;
      if |text| + 1 > MAX_MSG_LEN {
        return;
      }
      msg := GetFreeMsg();
      if msg != null {
        Configure(msg, text, if cycles < 128 then cycles else cycles - 256, priority);
        if priority >= MAX_MSG_PRIORITY {
          CountUnlisted(msg);
          outcome := Fault;
        } else {
          AppendQueue(msg);
          outcome := Done;
        }
      }
    }

    /** The first statement of `append_queue`. */
    method CountUnlisted(msg: Msg)
      requires ValidBut(msg)
      modifies this`msg_count
      ensures ValidBut(msg) && msg_count == (old(msg_count) + 1) % 256
    {
      hide Queue, Distinct, Listed;
      msg_count := (msg_count + 1) % 256;
    }

    /** A new record behind the message on the screen, or at the end of the last queue if there is none. */
    method Interpose(text: cstring) returns (msg: Msg?)
      requires Valid() && |text| + 1 <= MAX_MSG_LEN
      modifies this`message_queues, this`msg_count, this`lists, Nodes(message_buf)
      ensures Valid() && unchanged(`current_disp_msg)
      ensures msg == null <==> old(PoolExhausted())
      ensures msg == null ==> unchanged(this) && unchanged(message_buf)
      ensures msg != null ==>
        msg in message_buf && old(!msg.used) && msg.used && msg.message == text && msg.cycles_left == 1
      ensures msg != null && current_disp_msg == null ==> lists == old(WithLast(lists, LOWEST_MSG_PRIORITY, msg))
      ensures msg != null && current_disp_msg != null ==>
        msg.priority == current_disp_msg.priority
        && lists == WithBehind(old(lists), old(current_disp_msg.priority), current_disp_msg, msg)
        && msg_count == old(msg_count) && current_disp_msg.cycles_left == old(current_disp_msg.cycles_left)
        && current_disp_msg.priority == old(current_disp_msg.priority)
      ensures forall m | m in message_buf && m != msg :: m.Kept()
    {
      hide ValidBut;
      msg := GetFreeMsg();
      if msg != null {
        Configure(msg, text, 1, LOWEST_MSG_PRIORITY);
        InsertQueueNext(msg);
      }
    }

    /** `update_priority`: the message leaves its queue and joins the end of another, or of the same. */
    method UpdatePriority(msg: Msg, priority: nat) returns (outcome: Outcome)
      requires Valid() && msg in message_buf && msg.used
      modifies this`message_queues, this`msg_count, this`lists, Nodes(message_buf)`next, Nodes(message_buf)`previous
      modifies msg`priority
      ensures Valid() && outcome == if priority > LOWEST_MSG_PRIORITY then AssertionFailed else Done
      ensures outcome != Done ==> unchanged(this) && unchanged(message_buf)
      ensures outcome == Done ==>
        msg.priority == priority && lists == WithLast(old(Without(lists, msg.priority, msg)), priority, msg)
      ensures msg_count == old(msg_count)
    {
      hide Queue, Distinct, Chained, Remove;
      if priority > LOWEST_MSG_PRIORITY {
        return AssertionFailed;
      }
      PopQueueMsg(msg);
      SetPriority(msg, priority);
      AppendQueue(msg);
      return Done;
    }

    method SetPriority(msg: Msg, priority: nat)
      requires ValidBut(msg) && msg in message_buf && priority < MAX_MSG_PRIORITY
      modifies msg`priority
      ensures ValidBut(msg) && msg.priority == priority
    {
      hide Chained, Distinct;
      msg.priority := priority;
    }

    /** The message is the only one of its queue, and on the screen. */
    ghost predicate OnlyOneShown(msg: Msg)
      requires ValidBut(null) && msg in message_buf && msg.used
      reads this, message_buf
    {
      assert Listed(msg);
      current_disp_msg == msg && |lists[msg.priority]| == 1
    }

    /**
     `delete_message`.  The lists stay in order in any case; a deleted message
     stays on the screen exactly if it was there and the only one of its queue.
     */
    method DeleteMessage(msg: Msg?)
      requires Valid() && (msg != null ==> msg in message_buf && msg.used)
      modifies this, Nodes(message_buf)`next, Nodes(message_buf)`previous
      modifies if msg == null then {} else {msg}`used
      ensures msg == null ==> unchanged(this) && unchanged(message_buf)
      ensures ValidBut(null) && (msg != null ==> !msg.used)
      ensures msg != null ==> lists == old(Without(lists, msg.priority, msg))
      ensures msg != null ==> (CurrentInUse() <==> !old(OnlyOneShown(msg)))
      ensures msg != null ==> current_disp_msg == old(if current_disp_msg == msg then Next() else current_disp_msg)
      ensures msg != null ==> msg_count == (old(msg_count) + 255) % 256
      ensures unchanged(`scrolling) && (old(current_disp_msg) != msg ==> unchanged(`time_left_ms))
    {
      hide Queue, Distinct, Chained, Remove, Next, Listed, InPool;
      if msg == null {
        return;
      }
      NextOfOnlyOne(msg);
      if current_disp_msg == msg {
        DispNextMessage();
      }
      PopQueueMsg(msg);
      Release(msg);
    }

    /** The next message is the same only if there is no other in the queue. */
    lemma NextOfOnlyOne(msg: Msg)
      requires Valid() && msg in message_buf && msg.used
      ensures current_disp_msg == msg ==> (Next() == msg <==> OnlyOneShown(msg))
    {
      hide Chained;
      ListedInUse(msg);
      QueueDistinct(null, msg.priority);
    }

    method Release(msg: Msg)
      requires ValidBut(msg) && msg in message_buf
      modifies msg`used
      ensures ValidBut(null) && !msg.used
    {
      hide Chained, Distinct;
      msg.used := false;
    }

    /**
     `print_message`: the new message follows the one on the screen, and
     replaces it if that stays for good.  With nothing on the screen it joins a
     queue, and then the message on the screen is read through null.
     */
    method PrintMessage(text: cstring) returns (msg: Msg?, outcome: Outcome)
      requires Valid()
      modifies this, Nodes(message_buf)
      ensures Valid() && (msg == null <==> outcome == AssertionFailed)
      ensures outcome == AssertionFailed <==> |text| + 1 > MAX_MSG_LEN || old(PoolExhausted())
      ensures outcome == AssertionFailed ==> unchanged(this) && unchanged(message_buf)
      ensures outcome == Fault <==> outcome != AssertionFailed && old(current_disp_msg) == null
      ensures outcome == Fault ==>
        && lists == WithLast(old(lists), LOWEST_MSG_PRIORITY, msg) && current_disp_msg == null
        && unchanged(`time_left_ms) && unchanged(`scrolling)
      ensures msg != null ==>
        msg in message_buf && old(!msg.used) && msg.used && msg.message == text && msg.cycles_left == 1
      ensures outcome == Done ==>
        lists == WithBehind(old(lists), old(current_disp_msg.priority), old(current_disp_msg), msg)
      ensures outcome == Done ==>
        current_disp_msg
        == if old(current_disp_msg.cycles_left == -1 || msg_count == 1) then msg else old(current_disp_msg)
      ensures forall m | m in message_buf && m != msg :: m.Kept()
    {
      hide ValidBut, Behind, WithBehind, Insert, IndexOf;
      msg, outcome := null, AssertionFailed;
      if |text| + 1 > MAX_MSG_LEN {
        return;
      }
      if current_disp_msg != null {
        ListedInUse(current_disp_msg);
      }
      ghost var ls := lists;
      msg := Interpose(text);
      if msg == null {
        return;
      }
      if current_disp_msg == null {
        outcome := Fault;
        return;
      }
      BehindInserted(ls, current_disp_msg.priority, current_disp_msg, msg);
      if current_disp_msg.cycles_left == -1 || msg_count == 1 {
        DispNextMessage();
      }
      outcome := Done;
    }

    /** A queue on the screen stays there: the next message is one of its own. */
    lemma NextStaysInQueue()
      requires Valid() && current_disp_msg != null
      ensures current_disp_msg.priority < |lists| && Next() in lists[current_disp_msg.priority]
    {
      hide Queue, Distinct;
      ListedInUse(current_disp_msg);
    }

    /** The message on the screen has been shown as often as it should. */
    ghost predicate Expires()
      reads this`current_disp_msg, message_buf
    {
      && current_disp_msg != null && current_disp_msg in message_buf
      && (current_disp_msg.cycles_left == 1 || current_disp_msg.cycles_left == 0)
    }

    /** The display has shown a message once more. */
    method CountDown(msg: Msg)
      requires Valid() && msg in message_buf
      modifies msg`cycles_left
      ensures Valid()
      ensures msg.cycles_left == if old(msg.cycles_left) > 0 then old(msg.cycles_left) - 1 else old(msg.cycles_left)
      ensures Next() == old(Next())
    {
      hide Queue, Distinct;
      if msg.cycles_left > 0 {
        msg.cycles_left := msg.cycles_left - 1;
      }
      forall p | 0 <= p < MAX_MSG_PRIORITY ensures Queue(message_queues[p], lists[p], p) {
        QueueKept(Line(message_queues[p], lists[p], p));
      }
    }

    /** The end of the time of the message on the screen. */
    method NextMessage()
      requires Valid() && current_disp_msg != null
      modifies this, Nodes(message_buf)
      ensures ValidBut(null) && current_disp_msg == old(Next())
      ensures old(!Expires()) ==> lists == old(lists) && Valid()
      ensures old(Expires()) ==>
        && lists == old(Without(lists, current_disp_msg.priority, current_disp_msg))
        && (CurrentInUse() <==> !old(OnlyOneShown(current_disp_msg)))
      ensures forall m | m in message_buf :: m.message == old(m.message) && m.priority == old(m.priority)
      ensures forall m | m in message_buf ::
        m.cycles_left == old(m.cycles_left) - (if m == old(current_disp_msg) && old(m.cycles_left) > 0 then 1 else 0)
      ensures forall m | m in message_buf :: m.used <==> old(m.used) && !(m == old(current_disp_msg) && old(Expires()))
    {
      hide ValidBut, Next, Without;
      var msg := current_disp_msg;
      NextOfOnlyOne(msg);
      CountDown(msg);
      if msg.cycles_left == 0 {
        DispNextMessage();
        NextOfOnlyOne(msg);
        DeleteMessage(msg);
      } else {
        DispNextMessage();
      }
    }

    /** The display is to change, and does not scroll. */
    ghost predicate Due()
      reads this`time_left_ms, this`msg_count, this`scrolling
    {
      time_left_ms < 0 && msg_count > 0 && !scrolling
    }

    /**
     `refresh_screen_msg_ms`: when its time is up a message makes room for the
     next, and leaves if it has expired.  With nothing on the screen it is read
     through null.
     */
    method RefreshScreenMsgMs(ms: nat) returns (outcome: Outcome)
      requires Valid() && ms < 0x1_0000
      modifies this, Nodes(message_buf)
      ensures ValidBut(null)
      ensures outcome == if old(Due() && current_disp_msg == null) then Fault else Done
      ensures outcome == Fault ==> unchanged(this) && unchanged(message_buf)
      ensures old(time_left_ms) >= 0 ==> time_left_ms == old(time_left_ms) - ms && Valid()
      ensures !old(Due() && Expires()) ==> lists == old(lists) && Valid()
      ensures !old(Due()) ==> unchanged(`current_disp_msg) && unchanged(`msg_count) && unchanged(`scrolling)
      ensures old(time_left_ms < 0 && msg_count == 0) ==> unchanged(`time_left_ms)
      ensures outcome == Done && old(Due()) ==> current_disp_msg == old(Next())
      ensures old(Due() && Expires()) ==>
        && lists == old(Without(lists, current_disp_msg.priority, current_disp_msg))
        && (CurrentInUse() <==> !old(OnlyOneShown(current_disp_msg)))
      ensures forall m | m in message_buf :: m.message == old(m.message) && m.priority == old(m.priority)
      ensures forall m | m in message_buf ::
        var shown := old(Due()) && m == old(current_disp_msg) && old(m.cycles_left) > 0;
        m.cycles_left == old(m.cycles_left) - if shown then 1 else 0
      ensures forall m | m in message_buf ::
        m.used <==> old(m.used) && !(old(Due()) && m == old(current_disp_msg) && old(Expires()))
    {
      hide ValidBut;
      if time_left_ms >= 0 {
        time_left_ms := time_left_ms - ms;
      } else if msg_count > 0 {
        if scrolling {
          time_left_ms := SCROLL_SPEED_INTERVAL;
        } else {
          if current_disp_msg == null {
            return Fault;
          }
          NextMessage();
        }
      }
      return Done;
    }

    // ----- runs ---------------------------------------------------------------------------

    /** Nothing is on the screen, as at the beginning, and all queued messages are counted. */
    ghost predicate Blank()
      reads this, message_buf
    {
      && Valid() && current_disp_msg == null && time_left_ms == -1 && !scrolling
      && msg_count == Total(lists) <= MAX_MSGS
    }

    /** A call of a public function. */
    method Call(c: Operation) returns (outcome: Outcome)
      requires Blank() && c.InRange()
      modifies this, Nodes(message_buf)
      ensures outcome == Done ==> Blank() && Counts(c, old(Total(lists)), Total(lists))
      ensures c.Print? ==> outcome != Done
      ensures c.Refresh? ==>
        Blank() && lists == old(lists) && outcome == if old(Total(lists)) > 0 then Fault else Done
      ensures outcome == Fault ==> c.Print? || c.Refresh? || (c.Repeat? && c.priority > LOWEST_MSG_PRIORITY)
    {
      hide Valid, Total, WithLast, WithBehind;
      match c
      case New(text, priority) =>
        Queues();
        var msg := NewMessage(text, priority);
        outcome := if msg == null then AssertionFailed else Done;
        if msg != null { TotalWithLast(old(lists), priority, msg); }
      case Print(text) =>
        var _, o := PrintMessage(text);
        outcome := o;
      case Repeat(text, cycles, priority) =>
        Queues();
        var msg, o := PrintMessageRepeat(text, cycles, priority);
        outcome := o;
        if o == Done { TotalWithLast(old(lists), priority, msg); }
      case Priority(k, priority) =>
        outcome := Reprioritise(k, priority);
      case Delete(k) =>
        DeleteAt(k);
        outcome := Done;
      case Refresh(ms) =>
        outcome := RefreshScreenMsgMs(ms);
    }

    lemma TwoRecords()
      requires Valid()
      ensures |message_buf| > 1 && message_buf[0] != message_buf[1]
    {
    }

    lemma Queues()
      requires Valid()
      ensures |lists| == MAX_MSG_PRIORITY
    {
    }

    /** `update_priority` for record `k`, if it is in use. */
    method Reprioritise(k: nat, priority: nat) returns (outcome: Outcome)
      requires Blank() && k < MAX_MSGS
      modifies this, Nodes(message_buf)
      ensures outcome != Fault && (outcome == Done ==> Blank() && Total(lists) == old(Total(lists)))
    {
      hide Valid, Total, Without, WithLast;
      outcome := Done;
      var msg := InUse(k);
      if msg != null {
        ghost var p := msg.priority;
        outcome := UpdatePriority(msg, priority);
        if outcome == Done {
          TotalWithout(old(lists), p, msg);
          TotalWithLast(Without(old(lists), p, msg), priority, msg);
        }
      }
    }

    /** `delete_message` for record `k`, if it is in use. */
    method DeleteAt(k: nat)
      requires Blank() && k < MAX_MSGS
      modifies this, Nodes(message_buf)
      ensures Blank() && (Total(lists) == old(Total(lists)) || Total(lists) + 1 == old(Total(lists)))
    {
      hide ValidBut, Total, Without;
      var msg := InUse(k);
      if msg != null {
        TotalWithout(lists, msg.priority, msg);
      }
      DeleteMessage(msg);
    }

    /** The handle of record `k`, if it is in use. */
    method InUse(k: nat) returns (msg: Msg?)
      requires Valid() && k < MAX_MSGS
      ensures msg != null ==> msg in message_buf && msg.used
      ensures msg != null ==>
        |lists| == MAX_MSG_PRIORITY && msg.priority < MAX_MSG_PRIORITY && msg in lists[msg.priority]
    {
      hide Queue, Distinct;
      msg := if message_buf[k].used then message_buf[k] else null;
      if msg != null {
        ListedInUse(msg);
      }
    }

    /**
     Any run of calls from the beginning, up to the first that fails.  Until
     then nothing comes on the screen: every `print_message` that finds a
     record, and the first refresh while a message is queued, read the message
     on the screen through null, after which nothing is defined.  `queued` are
     the numbers of queued messages before the calls.
     */
    method Run(calls: seq<Operation>) returns (n: nat, outcome: Outcome, ghost queued: seq<nat>)
      requires Blank() && forall i | 0 <= i < |calls| :: calls[i].InRange()
      modifies this, Nodes(message_buf)
      ensures n <= |calls| && |queued| == n + 1 && queued[0] == old(Total(lists))
      ensures outcome == Done <==> n == |calls|
      ensures outcome == Done ==> Blank()
      ensures forall i | 0 <= i < n :: !calls[i].Print? && Counts(calls[i], queued[i], queued[i + 1])
      ensures forall i | 0 <= i < n && calls[i].Refresh? :: queued[i] == 0
      ensures n < |calls| && calls[n].Refresh? ==> outcome == Fault && Blank() && Total(lists) == queued[n] > 0
      ensures outcome == Fault ==>
        calls[n].Print? || calls[n].Refresh? || (calls[n].Repeat? && calls[n].priority > LOWEST_MSG_PRIORITY)
    {
      hide Blank, Total, Counts, Operation.InRange;
      n, outcome, queued := 0, Done, [Total(lists)];
      while n < |calls|
        invariant 0 <= n <= |calls| && outcome == Done && Blank()
        invariant |queued| == n + 1 && queued[0] == old(Total(lists)) && queued[n] == Total(lists)
        invariant forall i | 0 <= i < n :: !calls[i].Print? && Counts(calls[i], queued[i], queued[i + 1])
        invariant forall i | 0 <= i < n && calls[i].Refresh? :: queued[i] == 0
      {
        outcome := Call(calls[n]);
        if outcome != Done {
          return;
        }
        queued := queued + [Total(lists)];
        n := n + 1;
      }
    }
  }

  /** The calls of the public functions; handles are the indices of records. */
  datatype Operation =
    | New(text: cstring, priority: nat)
    | Print(text: cstring)
    | Repeat(text: cstring, cycles: nat, priority: nat)
    | Priority(k: nat, priority: nat)
    | Delete(k: nat)
    | Refresh(ms: nat)
  {
    /** The arguments have the types of the source. */
    predicate InRange() {
      match this
      case Repeat(_, cycles, _) => cycles < 256
      case Priority(k, _) => k < MAX_MSGS
      case Delete(k) => k < MAX_MSGS
      case Refresh(ms) => ms < 0x1_0000
      case _ => true
    }
  }

  /** How a call that returns changes the number of queued messages. */
  predicate Counts(c: Operation, before: nat, after: nat) {
    if c.New? || c.Repeat? then after == before + 1
    else if c.Delete? then after == before || after + 1 == before
    else after == before
  }

  function Total(ls: seq<seq<Msg>>): nat { if ls == [] then 0 else |ls[0]| + Total(ls[1..]) }

  lemma {:induction false} TotalUpdate(ls: seq<seq<Msg>>, p: nat, ns: seq<Msg>)
    requires p < |ls|
    ensures Total(ls[p := ns]) == Total(ls) - |ls[p]| + |ns|
  {
    if p > 0 {
      assert ls[p := ns][1..] == ls[1..][p - 1 := ns];
      TotalUpdate(ls[1..], p - 1, ns);
    } else {
      assert ls[0 := ns][1..] == ls[1..];
    }
  }

  lemma NoneQueued()
    ensures Total([[], [], []]) == 0
  {
    var none: seq<Msg> := [];
    assert [none, none, none][1..] == [none, none] && [none, none][1..] == [none] && [none][1..] == [];
    assert Total([none]) == 0;
  }

  /** The start of the application: two messages, and a refresh in the first turn in which time has passed. */
  method Startup(first: cstring, second: cstring, ms: nat) returns (s: ScreenMessages, outcome: Outcome)
    requires |first| < MAX_MSG_LEN && |second| < MAX_MSG_LEN && ms < 0x1_0000
    ensures fresh(s) && outcome == Fault
    ensures s.Valid() && s.current_disp_msg == null && |s.lists[LOWEST_MSG_PRIORITY]| == 2
  {
    hide ScreenMessages.ValidBut, Total;
    s := new ScreenMessages();
    s.Queues();
    s.TwoRecords();
    assert !s.message_buf[0].used;
    var _, _ := s.PrintMessageRepeat(first, 255, LOWEST_MSG_PRIORITY);
    assert !s.message_buf[0].used || !s.message_buf[1].used;
    var _, _ := s.PrintMessageRepeat(second, 255, LOWEST_MSG_PRIORITY);
    outcome := s.RefreshScreenMsgMs(ms);
  }

  lemma TotalWithLast(ls: seq<seq<Msg>>, p: nat, m: Msg)
    requires p < |ls|
    ensures Total(WithLast(ls, p, m)) == Total(ls) + 1
  {
    TotalUpdate(ls, p, ls[p] + [m]);
  }

  lemma TotalWithout(ls: seq<seq<Msg>>, p: nat, m: Msg)
    requires p < |ls| && m in ls[p]
    ensures Total(Without(ls, p, m)) + 1 == Total(ls) && |Without(ls, p, m)| == |ls|
  {
    TotalUpdate(ls, p, Remove(ls[p], IndexOf(ls[p], m)));
  }

  /** A node inserted behind another is the next one. */
  lemma BehindInserted(ls: seq<seq<Msg>>, p: nat, c: Msg, m: Msg)
    requires p < |ls| && c in ls[p]
    ensures Behind(WithBehind(ls, p, c, m), p, c) == m
  {
    hide IndexOf;
    var ns, k := ls[p], IndexOf(ls[p], c);
    var ms := Insert(ns, k + 1, m);
    assert ms[k] == c && ms[k + 1] == m;
    assert ms[..k + 1] == ns[..k + 1];
    SameIndex(ns, ms, c);
  }

  lemma {:induction false} SameIndex(ns: seq<Msg>, ms: seq<Msg>, c: Msg)
    requires c in ns && IndexOf(ns, c) < |ms| && ms[..IndexOf(ns, c) + 1] == ns[..IndexOf(ns, c) + 1]
    ensures IndexOf(ms, c) == IndexOf(ns, c)
  {
    assert ms[0] == ms[..IndexOf(ns, c) + 1][0];
    if ns[0] != c {
      assert ms[1..][..IndexOf(ns, c)] == ms[..IndexOf(ns, c) + 1][1..];
      assert ns[1..][..IndexOf(ns, c)] == ns[..IndexOf(ns, c) + 1][1..];
      SameIndex(ns[1..], ms[1..], c);
    }
  }
}
