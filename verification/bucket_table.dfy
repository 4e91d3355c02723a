/**
 The interval table of the TME engine: intervals are appended in ascending order and searched by a walk
 whose step is halved until it is one.
*/
module BucketTable {
  import opened Machine

  datatype Interval = Interval(start: U32, stop: U32)

  datatype Block = Block(iv: Interval, time: nat)

  /** `block` is the number of the block a record points at; in memory it is the block's offset. */
  datatype Record = Record(block: nat, exec: U32)

  const TME_ERROR: U32 := 0
  const TME_TRUE: U32 := 2
  const TME_FALSE: U32 := 3

  // ---------------------------------------------------------------- sorted intervals

  predicate In(iv: Interval, value: U32) {
    iv.start <= value <= iv.stop
  }

  predicate Sorted(v: seq<Interval>) {
    && (forall i :: 0 <= i < |v| ==> v[i].start <= v[i].stop)
    && (forall i, j :: 0 <= i < j < |v| ==> v[i].stop < v[j].start)
  }

  /** The linear scan that the search stands for. */
  function Scan(v: seq<Interval>, value: U32): (k: Option<nat>)
    ensures k.Some? ==> k.value < |v|
  {
    if v == [] then None
    else if In(v[|v| - 1], value) then Some(|v| - 1)
    else Scan(v[..|v| - 1], value)
  }

  lemma {:induction false} ScanFinds(v: seq<Interval>, value: U32)
    requires Sorted(v)
    ensures match Scan(v, value)
      case None => forall i :: 0 <= i < |v| ==> !In(v[i], value)
      case Some(k) => k < |v| && forall i :: 0 <= i < |v| ==> (In(v[i], value) <==> i == k)
  {
    if v != [] && !In(v[|v| - 1], value) {
      ScanFinds(v[..|v| - 1], value);
      assert forall i :: 0 <= i < |v| - 1 ==> v[..|v| - 1][i] == v[i];
    }
  }

  lemma {:induction false} ScanIs(v: seq<Interval>, value: U32, k: nat)
    requires Sorted(v) && k < |v| && In(v[k], value)
    ensures Scan(v, value) == Some(k)
  {
    ScanFinds(v, value);
  }

  // ---------------------------------------------------------------- the walk

  /** The first interval that does not end before `value`: there the walk is bound to stop. */
  function Target(v: seq<Interval>, value: U32): (t: nat)
    requires v != [] && Sorted(v) && value <= v[|v| - 1].stop
    ensures t < |v|
    ensures forall q :: t <= q < |v| ==> value <= v[q].stop
    ensures forall q :: 0 <= q < t ==> v[q].start <= v[q].stop < value
    ensures forall q :: t < q < |v| ==> value < v[q].start
  {
    if |v| == 1 || v[|v| - 2].stop < value then |v| - 1
    else Target(v[..|v| - 1], value)
  }

  function Log2(n: nat): nat
    requires n > 0
  {
    if n == 1 then 0 else 1 + Log2(n / 2)
  }

  function Distance(a: int, b: int): nat {
    if a < b then b - a else a - b
  }

  /** What is left of the walk when its step is `i` and it stands `d` away from its target. */
  predicate OnTime(n: nat, i: nat, d: nat, steps: nat)
    requires n > 0
  {
    if i >= 2 then steps + Log2(i) + 1 == Log2(n) && d <= i + steps
    else if i == 1 then steps + d + 1 <= 2 * Log2(n)
    else n == 1 && d == 0 && steps == 0
  }

  /** Half-way into the table, every interval is within reach. */
  lemma StartsOnTime(n: nat, i: nat, t: nat)
    requires t < n && (i == n / 2 || (i == 0 && n == 1))
    ensures OnTime(n, i, Distance(t, i), 0)
  {
  }

  lemma OneTurn(n: nat, i: nat, d: nat, turns: nat, d': nat)
    requires n > 0 && OnTime(n, i, d, turns)
    ensures turns + 1 <= 2 * Log2(n) + 1
    ensures d > 0 ==> i > 0
    ensures d > 0 && d' == Distance(d, if i == 1 then 1 else i / 2) ==>
      OnTime(n, if i == 1 then 1 else i / 2, d', turns + 1)
  {
    hide OnTime;
    LeavesTime(n, i, d, turns);
    if d > 0 && d' == Distance(d, if i == 1 then 1 else i / 2) {
      StaysOnTime(n, i, d, turns, d');
    }
  }

  lemma LeavesTime(n: nat, i: nat, d: nat, turns: nat)
    requires n > 0 && OnTime(n, i, d, turns)
    ensures turns <= 2 * Log2(n) && (d > 0 ==> i > 0)
  {
  }

  /** The next step of the walk keeps it on time: a halved step overshoots by one more at the most. */
  lemma StaysOnTime(n: nat, i: nat, d: nat, steps: nat, d': nat)
    requires n > 0 && i > 0 && OnTime(n, i, d, steps) && d > 0
    requires d' == Distance(d, if i == 1 then 1 else i / 2)
    ensures OnTime(n, if i == 1 then 1 else i / 2, d', steps + 1)
  {
    if i >= 2 {
      assert Log2(i) == 1 + Log2(i / 2);
    }
  }

  lemma TargetIsScan(v: seq<Interval>, value: U32)
    requires v != [] && Sorted(v) && v[0].start <= value <= v[|v| - 1].stop
    ensures var t := Target(v, value);
      Scan(v, value) == if v[t].start <= value then Some(t) else None
  {
    var t, k := Target(v, value), Scan(v, value);
    ScanFinds(v, value);
    if k.Some? {
      assert In(v[k.value], value);
    } else {
      assert !In(v[t], value);
    }
  }

  // ---------------------------------------------------------------- a table, abstractly

  datatype Op = Insert(start: U32, stop: U32) | Lookup(value: U32)

  /** Whether an insert is accepted; `room` is how many intervals the table can hold. */
  predicate Accepts(v: seq<Interval>, start: U32, stop: U32, room: nat) {
    start <= stop && (v != [] ==> v[|v| - 1].stop < start) && |v| < room
  }

  function After(v: seq<Interval>, op: Op, room: nat): seq<Interval> {
    if op.Insert? && Accepts(v, op.start, op.stop, room) then v + [Interval(op.start, op.stop)] else v
  }

  function AfterAll(v: seq<Interval>, ops: seq<Op>, room: nat): seq<Interval> {
    if ops == [] then v else After(AfterAll(v, ops[..|ops| - 1], room), ops[|ops| - 1], room)
  }

  /** An empty table is searched as if it held the one interval 0..0: its memory is zeroed. */
  function View(v: seq<Interval>): (w: seq<Interval>)
    ensures w != []
    ensures Sorted(v) ==> Sorted(w)
  {
    if v == [] then [Interval(0, 0)] else v
  }

  /** What a lookup answers. */
  function Answer(v: seq<Interval>, value: U32): U32 {
    if Scan(View(v), value).Some? then TME_TRUE else TME_FALSE
  }

  /** Yes if some interval of the table contains the value, or if zero is looked up in an empty table; no otherwise. */
  lemma AnswerIsScan(v: seq<Interval>, value: U32)
    requires Sorted(v)
    ensures Answer(v, value) ==
      if (exists k :: 0 <= k < |v| && v[k].start <= value <= v[k].stop) || (v == [] && value == 0)
      then TME_TRUE else TME_FALSE
    ensures Scan(View(v), value) == Scan(v, value) <==> !(v == [] && value == 0)
  {
    var k := Scan(View(v), value);
    if v == [] {
      assert View(v)[..0] == [];
    } else if k.Some? {
      ScanFinds(v, value);
      assert In(v[k.value], value);
    } else {
      ScanFinds(v, value);
      assert forall q :: 0 <= q < |v| ==> !In(v[q], value);
    }
  }

  /** An interval is accepted exactly if the longer table is sorted and no longer than the room. */
  lemma AcceptsIsSorted(v: seq<Interval>, start: U32, stop: U32, room: nat)
    requires Sorted(v)
    ensures Accepts(v, start, stop, room) <==>
      Sorted(v + [Interval(start, stop)]) && |v + [Interval(start, stop)]| <= room
  {
    var w := v + [Interval(start, stop)];
    assert w[|v|] == Interval(start, stop);
    if v != [] {
      assert w[|v| - 1] == v[|v| - 1];
    }
  }

  lemma AfterOneMore(v: seq<Interval>, ops: seq<Op>, k: nat, room: nat)
    requires k < |ops|
    ensures AfterAll(v, ops[..k + 1], room) == After(AfterAll(v, ops[..k], room), ops[k], room)
  {
    hide After;
    assert ops[..k + 1][..k] == ops[..k];
  }

  /** Through any operations, accepted and refused, the table stays sorted and only grows at its end. */
  lemma {:induction false} TableGrows(v: seq<Interval>, ops: seq<Op>, room: nat)
    requires Sorted(v)
    ensures Sorted(AfterAll(v, ops, room)) && v <= AfterAll(v, ops, room)
    ensures |v| <= room ==> |AfterAll(v, ops, room)| <= room
  {
    if ops != [] {
      TableGrows(v, ops[..|ops| - 1], room);
      StaysSorted(AfterAll(v, ops[..|ops| - 1], room), ops[|ops| - 1], room);
    }
  }

  lemma StaysSorted(v: seq<Interval>, op: Op, room: nat)
    requires Sorted(v)
    ensures Sorted(After(v, op, room)) && v <= After(v, op, room)
    ensures |v| <= room ==> |After(v, op, room)| <= room
  {
  }

  /** Once an interval has been accepted, every value in it is found, in its block, ever after. */
  lemma FoundEverAfter(v: seq<Interval>, start: U32, stop: U32, ops: seq<Op>, room: nat, value: U32)
    requires Sorted(v) && Accepts(v, start, stop, room) && start <= value <= stop
    ensures var w := AfterAll(After(v, Insert(start, stop), room), ops, room);
      Scan(View(w), value) == Some(|v|) && Answer(w, value) == TME_TRUE
  {
    var u := After(v, Insert(start, stop), room);
    TableGrows(u, ops, room);
    ScanIs(AfterAll(u, ops, room), value, |v|);
  }

  /** Operation `n` of the run is an accepted insert, and interval `k` is what it inserted. */
  predicate InsertedBy(ops: seq<Op>, room: nat, n: nat, k: nat)
    requires n < |ops| && k < |AfterAll([], ops, room)|
  {
    var v := AfterAll([], ops[..n], room);
    && ops[n].Insert? && |v| == k && Accepts(v, ops[n].start, ops[n].stop, room)
    && AfterAll([], ops, room)[k] == Interval(ops[n].start, ops[n].stop)
  }

  /** Conversely, what is found was put there by an accepted insert, the `k`-th one of the run. */
  lemma {:induction false} FoundWasInserted(ops: seq<Op>, room: nat, k: nat)
    requires k < |AfterAll([], ops, room)|
    ensures exists n :: 0 <= n < |ops| && InsertedBy(ops, room, n, k)
  {
    var n := |ops| - 1;
    var w := AfterAll([], ops[..n], room);
    if k < |w| {
      FoundWasInserted(ops[..n], room, k);
      var m :| 0 <= m < n && InsertedBy(ops[..n], room, m, k);
      assert ops[..n][..m] == ops[..m];
      assert InsertedBy(ops, room, m, k);
    } else {
      assert InsertedBy(ops, room, n, k);
    }
  }

  // ---------------------------------------------------------------- the table in memory

  /** Block 1 and those after it hold the intervals. */
  ghost predicate Shows(blocks: array<Block>, v: seq<Interval>)
    reads blocks
  {
    |v| < blocks.Length && forall q :: 0 <= q < |v| ==> blocks[1 + q].iv == v[q]
  }

  lemma ShownAll(blocks: array<Block>, v: seq<Interval>)
    requires Shows(blocks, View(v))
    ensures forall q :: 0 <= q < |v| ==> 1 + q < blocks.Length && blocks[1 + q].iv == v[q]
  {
  }

  lemma Shown(blocks: array<Block>, v: seq<Interval>, q: nat)
    requires Shows(blocks, v) && q < |v|
    ensures 1 + q < blocks.Length && blocks[1 + q].iv == v[q]
  {
  }

  /**
   The search routine of `bucket_lookup` on a table of `filled` intervals, which from block 1 on show
   the intervals `v`: -2 for a miss, or the position of the interval found, in at most 2*log2 + 1
   turns of its loop.
   */
  method Search(blocks: array<Block>, filled: nat, value: U32, ghost v: seq<Interval>)
    returns (found: int, ghost turns: nat)
    requires v != [] && Sorted(v) && v[0].start <= value <= v[|v| - 1].stop
    requires filled == |v| || (filled == 0 && |v| == 1)
    requires Shows(blocks, v)
    ensures found == if Scan(v, value).Some? then Scan(v, value).value else -2
    ensures turns <= 2 * Log2(|v|) + 1
  {
    hide Sorted, Scan, Shows, Log2, OnTime;
    ghost var n, t := |v|, Target(v, value);
    var i: nat, j: int := filled / 2, filled / 2;
    found := -1;
    turns := 0;
    StartsOnTime(n, i, t);
    while found == -1
      invariant 0 <= j < n
      invariant i >= 2 ==> i <= j && j + i <= n
      invariant found == -1 ==> OnTime(n, i, Distance(t, j), turns)
      invariant found != -1 ==> turns <= 2 * Log2(n) + 1
      invariant found != -1 ==> found == if v[t].start <= value then t else -2
      decreases if found == -1 then 1 else 0, i, Distance(t, j)
    {
      Shown(blocks, v, j);
      ghost var i0, d0 := i, Distance(t, j);
      i := if i == 1 then 1 else i / 2;
      if blocks[1 + j].iv.start > value {
        Shown(blocks, v, j - 1);
        if blocks[1 + (j - 1)].iv.stop < value {
          found := -2;
        } else {
          j := j - i;
        }
      } else {
        if blocks[1 + j].iv.stop < value {
          if blocks[1 + j].iv.start > value {
            found := -2;
          } else {
            j := j + i;
          }
        } else {
          found := j;
        }
      }
      OneTurn(n, i0, d0, turns, Distance(t, j));
      turns := turns + 1;
    }
    TargetIsScan(v, value);
  }

  class TmeData {
    const key_len: U32
    const default_exec: U32
    /** Block 0 is the default block, on which misses are timed. */
    const blocks: array<Block>
    const records: array<Record>
    var filled_blocks: nat
    var filled_entries: nat
    var last_found: Option<nat>
    ghost var intervals: seq<Interval>

    ghost predicate Valid()
      reads this, blocks, records
    {
      && 1 <= records.Length
      && filled_entries == |intervals| <= records.Length
      && filled_blocks == filled_entries + 1 <= blocks.Length
      && Sorted(intervals)
      && Shows(blocks, View(intervals))
      && blocks[0].iv == Interval(0, 0)
      && (forall r :: 0 <= r < filled_entries ==> records[r] == Record(r + 1, default_exec))
    }

    /** How many intervals the table can hold. */
    function Room(): nat {
      if blocks.Length == 0 then 0
      else if blocks.Length - 1 < records.Length then blocks.Length - 1 else records.Length
    }

    /** A table as it is validated: its memory zeroed, one block filled. */
    constructor (key_len: U32, default_exec: U32, shared_memory_blocks: nat, lut_entries: nat)
      requires 2 <= shared_memory_blocks && 1 <= lut_entries
      ensures Valid() && fresh(blocks) && fresh(records) && intervals == [] && last_found == None
      ensures this.key_len == key_len
      ensures Room() == if shared_memory_blocks - 1 < lut_entries then shared_memory_blocks - 1 else lut_entries
    {
      this.key_len, this.default_exec := key_len, default_exec;
      blocks := new Block[shared_memory_blocks](_ => Block(Interval(0, 0), 0));
      records := new Record[lut_entries](_ => Record(0, 0));
      filled_blocks, filled_entries, last_found := 1, 0, None;
      intervals := [];
    }

    /** Keys of 16 and of 32 bits; the search is the same for both. */
    predicate KeyLenOk() {
      key_len == 1 || key_len == 2
    }

    /** The bounds of an interval, or a value to look up, of the table's width. */
    predicate IsKey(key: seq<U32>) {
      |key| == 2 && (key_len == 1 ==> key[0] < 0x1_0000 && key[1] < 0x1_0000)
    }

    /**
     `bucket_lookup`. A hit replaces the key by the bounds of the interval, times its block and points
     `last_found` at its record; a miss clears the key and times the default block.
     */
    method Lookup(key: array<U32>, now: nat) returns (r: U32)
      requires Valid() && IsKey(key[..])
      modifies this`last_found, blocks, key
      ensures Valid()
      ensures KeyLenOk() ==>
        r ==
          if (exists k :: 0 <= k < |intervals| && intervals[k].start <= old(key[0]) <= intervals[k].stop)
            || (intervals == [] && old(key[0]) == 0)
          then TME_TRUE else TME_FALSE
      ensures r == TME_TRUE ==>
        && last_found.Some?
        && (intervals == [] ==> last_found.value == 0 && key[0] == key[1] == 0)
        && (intervals != [] ==>
          && last_found.value < |intervals|
          && intervals[last_found.value] == Interval(key[0], key[1]) && key[0] <= old(key[0]) <= key[1])
      ensures r == TME_FALSE ==> last_found == None && key[0] == key[1] == 0
      ensures KeyLenOk() ==> forall b :: 0 <= b < blocks.Length ==>
        && blocks[b].iv == old(blocks[b].iv)
        && blocks[b].time ==
          if b == (if last_found.Some? then 1 + last_found.value else 0) then now else old(blocks[b].time)
      ensures !KeyLenOk() ==>
        r == TME_ERROR && key[..] == old(key[..]) && blocks[..] == old(blocks[..]) && last_found == old(last_found)
    {
      if key_len != 1 && key_len != 2 {
        return TME_ERROR;
      }
      hide Valid;
      var found := Find(key[0]);
      if found < 0 {
        Missed(key, now);
        return TME_FALSE;
      }
      Found(key, found, now);
      return TME_TRUE;
    }

    lemma Verdicts(value: U32)
      requires Valid()
      ensures var k, w := Scan(View(intervals), value), View(intervals);
        && (k.Some? ==> k.value < |w| && w[k.value].start <= value <= w[k.value].stop)
        && (intervals == [] ==> w == [Interval(0, 0)]) && (intervals != [] ==> w == intervals)
        && (k.Some? <==>
          (exists q :: 0 <= q < |intervals| && intervals[q].start <= value <= intervals[q].stop)
            || (intervals == [] && value == 0))
    {
      AnswerIsScan(intervals, value);
      ScanFinds(View(intervals), value);
    }

    /** The test of the table's outer bounds, and the search. */
    method Find(value: U32) returns (found: int)
      requires Valid()
      ensures found < 0 <==>
        (forall q :: 0 <= q < |intervals| ==> !(intervals[q].start <= value <= intervals[q].stop))
          && !(intervals == [] && value == 0)
      ensures found >= 0 && intervals != [] ==>
        found < |intervals| && intervals[found].start <= value <= intervals[found].stop
      ensures found >= 0 && intervals == [] ==> found == 0
    {
      hide Shows, Sorted, Scan;
      Verdicts(value);
      ghost var v := View(intervals);
      Shown(blocks, v, 0);
      Shown(blocks, v, |v| - 1);
      if value < blocks[1].iv.start || value > blocks[filled_blocks - 1].iv.stop {
        OutsideNotFound(v, value);
        return -2;
      }
      ghost var turns;
      found, turns := Search(blocks, filled_blocks - 1, value, v);
    }

    method Missed(key: array<U32>, now: nat)
      requires Valid() && key.Length == 2
      modifies this`last_found, blocks, key
      ensures Valid() && last_found == None && key[0] == 0 && key[1] == 0
      ensures forall q :: 0 <= q < blocks.Length ==>
        blocks[q].iv == old(blocks[q].iv) && blocks[q].time == if q == 0 then now else old(blocks[q].time)
    {
      key[0], key[1] := 0, 0;
      Touch(0, now);
      last_found := None;
    }

    method Found(key: array<U32>, found: nat, now: nat)
      requires Valid() && key.Length == 2 && (if intervals == [] then found == 0 else found < |intervals|)
      modifies this`last_found, blocks, key
      ensures Valid() && last_found == Some(found)
      ensures Interval(key[0], key[1]) == if intervals == [] then Interval(0, 0) else intervals[found]
      ensures 1 + found < blocks.Length
      ensures forall q :: 0 <= q < blocks.Length ==>
        blocks[q].iv == old(blocks[q].iv) && blocks[q].time == if q == 1 + found then now else old(blocks[q].time)
    {
      Shown(blocks, View(intervals), found);
      last_found := Some(found);
      key[0], key[1] := blocks[1 + found].iv.start, blocks[1 + found].iv.stop;
      Touch(1 + found, now);
    }

    /** GET_TIME on one block. */
    method Touch(b: nat, now: nat)
      requires Valid() && b < blocks.Length
      modifies blocks
      ensures Valid()
      ensures forall q :: 0 <= q < blocks.Length ==>
        blocks[q].iv == old(blocks[q].iv) && blocks[q].time == if q == b then now else old(blocks[q].time)
    {
      blocks[b] := blocks[b].(time := now);
    }

    method SetBlock(b: nat, block: Block)
      requires b < blocks.Length
      modifies blocks
      ensures blocks[..] == old(blocks[..])[b := block]
      ensures blocks[b] == block && forall q :: 0 <= q < blocks.Length && q != b ==> blocks[q] == old(blocks[q])
    {
      ghost var bs := blocks[..];
      blocks[b] := block;
      forall k | 0 <= k < |bs|
        ensures blocks[..][k] == bs[b := block][k]
      {
      }
    }

    method SetRecord(r: nat, record: Record)
      requires r < records.Length
      modifies records
      ensures records[..] == old(records[..])[r := record]
      ensures records[r] == record && forall q :: 0 <= q < records.Length && q != r ==> records[q] == old(records[q])
    {
      ghost var rs := records[..];
      records[r] := record;
      forall k | 0 <= k < |rs|
        ensures records[..][k] == rs[r := record][k]
      {
      }
    }

    /**
     `bucket_lookup_insert`: a refused insert changes nothing. For 16-bit keys the new interval goes to the
     block that the next record already names, which has to be the next free one.
     */
    method InsertKey(key: array<U32>, now: nat) returns (r: U32)
      requires Valid() && IsKey(key[..])
      requires key_len == 1 && filled_entries < records.Length ==> records[filled_entries].block == filled_blocks
      modifies this, blocks, records
      ensures Valid() && last_found == old(last_found)
      ensures r == (
        if KeyLenOk() && Sorted(old(intervals) + [Interval(key[0], key[1])])
          && |old(intervals)| < records.Length && |old(intervals)| + 1 < blocks.Length
        then TME_TRUE else TME_ERROR)
      ensures intervals == old(intervals) + if r == TME_TRUE then [Interval(key[0], key[1])] else []
      ensures r == TME_ERROR ==> blocks[..] == old(blocks[..]) && records[..] == old(records[..])
      ensures r == TME_TRUE ==> var n := old(filled_entries);
        && n < records.Length && n + 1 < blocks.Length && filled_entries == n + 1
        && blocks[..] == old(blocks[..])[n + 1 := Block(Interval(key[0], key[1]), now)]
        && records[..] == old(records[..])[n := Record(n + 1, default_exec)]
    {
      if key_len != 1 && key_len != 2 {
        return TME_ERROR;
      }
      var start, stop := key[0], key[1];
      AcceptsIsSorted(intervals, start, stop, Room());
      if start > stop {
        return TME_ERROR;
      }
      if filled_entries > 0 {
        Shown(blocks, intervals, filled_entries - 1);
        var last := records[filled_entries - 1].block;
        if blocks[last].iv.stop >= start {
          return TME_ERROR;
        }
      }
      if filled_blocks == blocks.Length {
        return TME_ERROR;
      }
      if filled_entries == records.Length {
        return TME_ERROR;
      }
      Append(if key_len == 2 then filled_blocks else records[filled_entries].block, start, stop, now);
      return TME_TRUE;
    }

    lemma Roomy()
      requires Valid() && |intervals| < Room()
      ensures filled_blocks < blocks.Length && filled_entries < records.Length
    {
    }

    method Append(block: nat, start: U32, stop: U32, now: nat)
      requires Valid() && block == filled_blocks && Accepts(intervals, start, stop, Room())
      modifies this, blocks, records
      ensures Valid() && last_found == old(last_found)
      ensures intervals == old(intervals) + [Interval(start, stop)]
      ensures var n := old(filled_entries);
        && filled_entries == n + 1
        && blocks[..] == old(blocks[..])[n + 1 := Block(Interval(start, stop), now)]
        && records[..] == old(records[..])[n := Record(n + 1, default_exec)]
    {
      hide Sorted, Shows, View;
      Roomy();
      ShownAll(blocks, intervals);
      ghost var v := intervals;
      var iv := Interval(start, stop);
      SetBlock(block, Block(iv, now));
      SetRecord(filled_entries, Record(block, default_exec));
      filled_blocks := filled_blocks + 1;
      filled_entries := filled_entries + 1;
      intervals := v + [iv];
      StillShows(blocks, v, iv);
      StaysSorted(v, Insert(start, stop), Room());
    }

    /** For 16-bit keys, the records not yet filled name the free blocks in order. */
    ghost predicate Named()
      reads this, records
    {
      key_len == 1 ==> forall r :: filled_entries <= r < records.Length ==> records[r].block == r + 1
    }

    /** The values of an operation have the width of the table's keys. */
    predicate Fits(op: Op) {
      key_len == 1 ==>
        match op
        case Insert(start, stop) => start < 0x1_0000 && stop < 0x1_0000
        case Lookup(value) => value < 0x1_0000
    }

    /** What an operation on the table `v` replies, and the table it leaves. */
    predicate Performed(v: seq<Interval>, op: Op, r: U32, w: seq<Interval>) {
      match op
      case Insert(start, stop) =>
        var longer := v + [Interval(start, stop)];
        if Sorted(longer) && |longer| <= records.Length && |longer| < blocks.Length
        then r == TME_TRUE && w == longer
        else r == TME_ERROR && w == v
      case Lookup(value) =>
        && w == v
        && r ==
          if (exists q :: 0 <= q < |v| && v[q].start <= value <= v[q].stop) || (v == [] && value == 0)
          then TME_TRUE else TME_FALSE
    }

    method Perform(op: Op, now: nat) returns (r: U32)
      requires Valid() && KeyLenOk() && Named() && Fits(op)
      modifies this, blocks, records
      ensures Valid() && Named() && intervals == After(old(intervals), op, Room())
      ensures Performed(old(intervals), op, r, intervals)
    {
      hide Sorted, Shows, Scan, View;
      var key: array<U32> := new U32[2];
      match op {
        case Insert(start, stop) =>
          AcceptsIsSorted(intervals, start, stop, Room());
          key[0], key[1] := start, stop;
          r := InsertKey(key, now);
        case Lookup(value) =>
          key[0], key[1] := value, 0;
          r := this.Lookup(key, now);
      }
    }

    /**
     Any run of inserts and lookups on one table, for keys of either width. `tables` holds the intervals
     before each operation and after the last one: an insert is accepted exactly if the longer table is
     sorted and fits, and a lookup says whether some interval contains the value.
     */
    method Session(ops: seq<Op>, now: nat) returns (results: seq<U32>, ghost tables: seq<seq<Interval>>)
      requires Valid() && KeyLenOk() && Named() && forall k :: 0 <= k < |ops| ==> Fits(ops[k])
      modifies this, blocks, records
      ensures Valid() && Named()
      ensures |results| == |ops| && |tables| == |ops| + 1
      ensures tables[0] == old(intervals) && tables[|ops|] == intervals
      ensures forall k :: 0 <= k < |ops| ==> tables[k] == AfterAll(old(intervals), ops[..k], Room())
      ensures forall k :: 0 <= k < |ops| ==> Performed(tables[k], ops[k], results[k], tables[k + 1])
    {
      hide Valid, Named, Fits, After, Sorted;
      results, tables := [], [intervals];
      for k := 0 to |ops|
        invariant Valid() && Named() && |results| == k && |tables| == k + 1
        invariant tables[0] == old(intervals) && tables[k] == intervals
        invariant forall q :: 0 <= q <= k ==> tables[q] == AfterAll(tables[0], ops[..q], Room())
        invariant forall q :: 0 <= q < k ==> Performed(tables[q], ops[q], results[q], tables[q + 1])
      {
        AfterOneMore(tables[0], ops, k, Room());
        var r := Perform(ops[k], now);
        results, tables := results + [r], tables + [intervals];
      }
      assert ops[..|ops|] == ops;
    }
  }

  /** A block written behind the last interval adds one. */
  lemma StillShows(blocks: array<Block>, v: seq<Interval>, iv: Interval)
    requires |v| + 1 < blocks.Length
    requires forall q :: 0 <= q < |v| ==> blocks[1 + q].iv == v[q]
    requires blocks[1 + |v|].iv == iv
    ensures Shows(blocks, View(v + [iv]))
  {
  }

  lemma OutsideNotFound(v: seq<Interval>, value: U32)
    requires v != [] && Sorted(v) && (value < v[0].start || value > v[|v| - 1].stop)
    ensures Scan(v, value) == None
  {
    ScanFinds(v, value);
  }
}
