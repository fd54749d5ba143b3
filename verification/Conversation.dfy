/** A message history with an index of turns over it (crates/core/src/conversation.rs). */
module Conversations {
  import opened Values

  datatype Role = User | Assistant | System

  /** A message with its token estimate. */
  datatype Message = Message(role: Role, text: string, tokens: nat)

  datatype TurnRange = TurnRange(start: nat, end: nat)

  datatype Log = Log(messages: seq<Message>, turns: seq<TurnRange>)

  // ----- what each operation does -----

  function Pushed(c: Log, m: Message): Log {
    var n := |c.messages|;
    var turns :=
      if m.role == User then c.turns + [TurnRange(n, n + 1)]
      else if c.turns != [] then Extend(c.turns, n + 1)
      else c.turns;
    Log(c.messages + [m], turns)
  }

  /** The position of the last user message. */
  function LastUser(messages: seq<Message>): (p: Option<nat>)
    ensures p.Some? ==> p.value < |messages| && messages[p.value].role == User
    ensures forall k :: 0 <= k < |messages| && messages[k].role == User ==> p.Some? && k <= p.value
  {
    if messages == [] then None
    else if messages[|messages| - 1].role == User then Some(|messages| - 1)
    else LastUser(messages[..|messages| - 1])
  }

  function StartingBefore(turns: seq<TurnRange>, p: nat): seq<TurnRange> {
    if turns == [] then []
    else (if turns[0].start < p then [turns[0]] else []) + StartingBefore(turns[1..], p)
  }

  function Popped(c: Log): Log {
    match LastUser(c.messages)
    case None => c
    case Some(p) => Log(c.messages[..p], StartingBefore(c.turns, p))
  }

  function Cost(messages: seq<Message>): nat {
    if messages == [] then 0 else messages[0].tokens + Cost(messages[1..])
  }

  /** The suffix from `k` is within the budget and no longer one is. */
  ghost predicate IsLongest(messages: seq<Message>, budget: nat, k: nat) {
    && k <= |messages|
    && Cost(messages[k..]) <= budget
    && forall j :: 0 <= j < k ==> Cost(messages[j..]) > budget
  }

  /** Where the longest suffix within the budget starts. */
  function KeepFrom(messages: seq<Message>, budget: nat): (k: nat)
    ensures IsLongest(messages, budget, k)
  {
    if Cost(messages) <= budget then
      assert messages[0..] == messages;
      0
    else
      var k := KeepFrom(messages[1..], budget);
      assert forall j :: 1 <= j <= |messages| ==> messages[j..] == messages[1..][j - 1..];
      assert messages[0..] == messages;
      k + 1
  }

  /** The turns that reach past the first `n` messages, moved down by `n`. */
  function MovedDown(turns: seq<TurnRange>, n: nat): seq<TurnRange> {
    if turns == [] then []
    else MovedOne(turns[0], n) + MovedDown(turns[1..], n)
  }

  function MovedOne(t: TurnRange, n: nat): seq<TurnRange> {
    if t.end <= n then [] else [Moved(t, n)]
  }

  function Moved(t: TurnRange, n: nat): TurnRange
    requires t.end > n
  {
    TurnRange(if t.start < n then 0 else t.start - n, t.end - n)
  }

  function Dropped(c: Log, n: nat): Log
    requires n <= |c.messages|
  {
    Log(c.messages[n..], MovedDown(c.turns, n))
  }

  function Truncated(c: Log, budget: nat): Log {
    if Cost(c.messages) <= budget then c else Dropped(c, KeepFrom(c.messages, budget))
  }

  // ----- the index invariant -----

  /** Turns are non-empty, contiguous and reach to the end; every user message starts one, and
      every turn but possibly the first starts with one. */
  ghost predicate WellIndexed(c: Log) {
    Tiled(c.turns, |c.messages|) && UsersStart(c) && StartAtUsers(c)
  }

  ghost predicate Tiled(turns: seq<TurnRange>, n: nat) {
    && (forall i :: 0 <= i < |turns| ==> turns[i].start < turns[i].end <= n)
    && (forall i, j :: 0 <= i && j == i + 1 < |turns| ==> turns[i].end == turns[j].start)
    && (turns != [] ==> turns[|turns| - 1].end == n)
  }

  ghost predicate UsersStart(c: Log) {
    forall p :: 0 <= p < |c.messages| && c.messages[p].role == User ==> StartsTurn(c.turns, p)
  }

  ghost predicate StartAtUsers(c: Log) {
    forall i :: 1 <= i < |c.turns| ==>
      c.turns[i].start < |c.messages| && c.messages[c.turns[i].start].role == User
  }

  ghost predicate StartsTurn(turns: seq<TurnRange>, p: nat) {
    exists i :: 0 <= i < |turns| && turns[i].start == p
  }

  // ----- the object -----

  method RetainBefore(turns: seq<TurnRange>, start: nat) returns (kept: seq<TurnRange>)
    ensures kept == StartingBefore(turns, start)
  {
    kept := [];
    for i := 0 to |turns|
      invariant StartingBefore(turns, start) == kept + StartingBefore(turns[i..], start)
    {
      ghost var rest := StartingBefore(turns[i + 1..], start);
      assert turns[i..][1..] == turns[i + 1..];
      assert kept + ([turns[i]] + rest) == (kept + [turns[i]]) + rest && kept + ([] + rest) == kept + rest;
      if turns[i].start < start {
        kept := kept + [turns[i]];
      }
    }
  }

  method RetainMoved(turns: seq<TurnRange>, removed: nat) returns (kept: seq<TurnRange>)
    ensures kept == MovedDown(turns, removed)
  {
    kept := [];
    for i := 0 to |turns|
      invariant MovedDown(turns, removed) == kept + MovedDown(turns[i..], removed)
    {
      ghost var head, rest := MovedOne(turns[i], removed), MovedDown(turns[i + 1..], removed);
      assert turns[i..][1..] == turns[i + 1..];
      assert kept + (head + rest) == (kept + head) + rest;
      if turns[i].end > removed {
        var start := if turns[i].start < removed then 0 else turns[i].start - removed;
        kept := kept + [TurnRange(start, turns[i].end - removed)];
      }
    }
  }

  class Conversation {
    var messages: seq<Message>
    var turns: seq<TurnRange>

    function Current(): Log
      reads this
    {
      Log(messages, turns)
    }

    constructor ()
      ensures Current() == Log([], [])
    {
      messages, turns := [], [];
    }

    method Push(message: Message)
      modifies this
      ensures Current() == Pushed(old(Current()), message)
    {
      if message.role == User {
        turns := turns + [TurnRange(|messages|, |messages| + 1)];
      } else if turns != [] {
        var last := |turns| - 1;
        turns := turns[last := turns[last].(end := |messages| + 1)];
      }
      messages := messages + [message];
    }

    /** Searches back from the end. */
    method LastUserPosition() returns (position: Option<nat>)
      ensures position == LastUser(messages)
    {
      var p := |messages|;
      assert messages[..p] == messages;
      while p > 0 && messages[p - 1].role != User
        invariant p <= |messages|
        invariant LastUser(messages) == LastUser(messages[..p])
      {
        assert messages[..p][..p - 1] == messages[..p - 1];
        p := p - 1;
      }
      position := if p == 0 then None else Some(p - 1);
    }

    method PopLastTurn()
      modifies this
      ensures Current() == Popped(old(Current()))
    {
      var position := LastUserPosition();
      if position.Some? {
        messages := messages[..position.value];
        turns := RetainBefore(turns, position.value);
      }
    }

    method EstimatedTokens() returns (total: nat)
      ensures total == Cost(messages)
    {
      total := 0;
      for i := 0 to |messages|
        invariant Cost(messages) == total + Cost(messages[i..])
      {
        assert messages[i..][1..] == messages[i + 1..];
        total := total + messages[i].tokens;
      }
      assert messages[|messages|..] == [];
    }

    /** Walks back from the end while the budget lasts. */
    method FindCutoff(maxTokens: nat) returns (keepFrom: nat)
      ensures keepFrom == KeepFrom(messages, maxTokens)
    {
      var budget := maxTokens;
      keepFrom := |messages|;
      assert messages[keepFrom..] == [];
      while keepFrom > 0
        invariant 0 <= keepFrom <= |messages|
        invariant 0 <= budget && budget + Cost(messages[keepFrom..]) == maxTokens
      {
        var cost := messages[keepFrom - 1].tokens;
        CostStep(messages, keepFrom - 1);
        if budget >= cost {
          budget := budget - cost;
          keepFrom := keepFrom - 1;
        } else {
          break;
        }
      }
      CutoffUnique(messages, maxTokens, keepFrom);
    }

    /** The number of messages removed from the front. */
    method TruncateToBudget(maxTokens: nat) returns (removed: nat)
      modifies this
      ensures Current() == Truncated(old(Current()), maxTokens)
      ensures removed <= |old(messages)|
      ensures messages == old(messages)[removed..]
    {
      var total := EstimatedTokens();
      if total <= maxTokens {
        return 0;
      }
      var keepFrom := FindCutoff(maxTokens);
      removed := keepFrom;
      messages := messages[keepFrom..];
      turns := RetainMoved(turns, removed);
    }

    method Clear()
      modifies this
      ensures Current() == Log([], [])
    {
      messages, turns := [], [];
    }

    /** The messages of a turn; the slice is always in bounds. */
    method TurnMessages(turn: nat) returns (slice: Option<seq<Message>>)
      requires WellIndexed(Current())
      ensures slice.Some? <==> turn < |turns|
      ensures slice.Some? ==>
        && slice.value != []
        && (forall k :: 1 <= k < |slice.value| ==> slice.value[k].role != User)
        && slice.value == messages[turns[turn].start..turns[turn].end]
    {
      if turn >= |turns| {
        return None;
      }
      OnlyFirstIsUser(Current(), turn);
      return Some(messages[turns[turn].start..turns[turn].end]);
    }
  }

  // ----- costs -----

  lemma CostStep(messages: seq<Message>, k: nat)
    requires k < |messages|
    ensures Cost(messages[k..]) == messages[k].tokens + Cost(messages[k + 1..])
  {
    assert messages[k..][1..] == messages[k + 1..];
  }

  lemma {:induction false} CostDecreases(messages: seq<Message>, j: nat, k: nat)
    requires j <= k <= |messages|
    ensures Cost(messages[k..]) <= Cost(messages[j..])
    decreases k - j
  {
    if j < k {
      CostStep(messages, j);
      CostDecreases(messages, j + 1, k);
    }
  }

  /** A suffix that fits, and cannot be extended by one message, is the longest. */
  lemma CutoffUnique(messages: seq<Message>, budget: nat, k: nat)
    requires k <= |messages| && Cost(messages[k..]) <= budget
    requires k > 0 ==> Cost(messages[k - 1..]) > budget
    ensures k == KeepFrom(messages, budget)
  {
    assert IsLongest(messages, budget, k) by {
      forall j | 0 <= j < k ensures Cost(messages[j..]) > budget {
        CostDecreases(messages, j, k - 1);
      }
    }
    var k' := KeepFrom(messages, budget);
    OnlyOneLongest(messages, budget, k, k');
  }

  lemma OnlyOneLongest(messages: seq<Message>, budget: nat, k: nat, k': nat)
    requires IsLongest(messages, budget, k) && IsLongest(messages, budget, k')
    ensures k == k'
  {
  }

  // ----- every operation keeps the index -----

  lemma {:induction false} TurnsOrdered(turns: seq<TurnRange>, n: nat, i: nat, j: nat)
    requires Tiled(turns, n) && i <= j < |turns|
    ensures turns[i].start <= turns[j].start
    ensures i < j ==> turns[i].end <= turns[j].start && turns[i].start < turns[j].start
    decreases j - i
  {
    if i < j {
      TurnsOrdered(turns, n, i, j - 1);
      assert turns[j - 1].end == turns[j].start;
    }
  }

  lemma OnlyFirstIsUser(c: Log, i: nat)
    requires WellIndexed(c) && i < |c.turns|
    ensures forall p :: c.turns[i].start < p < c.turns[i].end ==> c.messages[p].role != User
  {
    forall p | c.turns[i].start < p < c.turns[i].end ensures c.messages[p].role != User {
      if c.messages[p].role == User {
        assert StartsTurn(c.turns, p);
        var j :| 0 <= j < |c.turns| && c.turns[j].start == p;
        TurnsOrdered(c.turns, |c.messages|, if i < j then i else j, if i < j then j else i);
      }
    }
  }

  lemma SameStarts(xs: seq<TurnRange>, ys: seq<TurnRange>, p: nat)
    requires |xs| <= |ys| && forall i :: 0 <= i < |xs| ==> xs[i].start == ys[i].start
    requires StartsTurn(xs, p)
    ensures StartsTurn(ys, p)
  {
    var i :| 0 <= i < |xs| && xs[i].start == p;
    assert ys[i].start == p;
  }

  lemma TiledPush(turns: seq<TurnRange>, n: nat)
    requires Tiled(turns, n)
    ensures Tiled(turns + [TurnRange(n, n + 1)], n + 1)
    ensures turns != [] ==> Tiled(Extend(turns, n + 1), n + 1)
  {
  }

  function Extend(turns: seq<TurnRange>, end: nat): seq<TurnRange>
    requires turns != []
  {
    turns[|turns| - 1 := turns[|turns| - 1].(end := end)]
  }

  lemma PushKeeps(c: Log, m: Message)
    requires WellIndexed(c)
    ensures WellIndexed(Pushed(c, m))
  {
    PushTiled(c, m);
    PushUsersStart(c, m);
    PushStartAtUsers(c, m);
  }

  lemma PushTiled(c: Log, m: Message)
    requires Tiled(c.turns, |c.messages|)
    ensures Tiled(Pushed(c, m).turns, |Pushed(c, m).messages|)
  {
    TiledPush(c.turns, |c.messages|);
  }

  lemma PushStartAtUsers(c: Log, m: Message)
    requires StartAtUsers(c)
    ensures StartAtUsers(Pushed(c, m))
  {
    var d, n := Pushed(c, m), |c.messages|;
    forall i | 1 <= i < |d.turns|
      ensures d.turns[i].start < |d.messages| && d.messages[d.turns[i].start].role == User
    {
      if i < |c.turns| {
        assert d.turns[i].start == c.turns[i].start < n;
      }
    }
  }

  lemma PushUsersStart(c: Log, m: Message)
    requires UsersStart(c)
    ensures UsersStart(Pushed(c, m))
  {
    var d, n := Pushed(c, m), |c.messages|;
    forall p | 0 <= p < |d.messages| && d.messages[p].role == User ensures StartsTurn(d.turns, p) {
      if p < n {
        assert c.messages[p].role == User;
        SameStarts(c.turns, d.turns, p);
      } else {
        assert d.turns[|d.turns| - 1].start == p;
      }
    }
  }

  lemma {:induction false} StartingBeforeConcat(xs: seq<TurnRange>, ys: seq<TurnRange>, p: nat)
    requires forall i :: 0 <= i < |xs| ==> xs[i].start < p
    requires forall i :: 0 <= i < |ys| ==> ys[i].start >= p
    ensures StartingBefore(xs + ys, p) == xs
  {
    if xs == [] {
      assert xs + ys == ys;
      if ys != [] {
        StartingBeforeConcat([], ys[1..], p);
        assert [] + ys[1..] == ys[1..];
      }
    } else {
      assert (xs + ys)[1..] == xs[1..] + ys;
      StartingBeforeConcat(xs[1..], ys, p);
    }
  }

  /** Removing the last user message and what follows removes exactly the last turn. */
  lemma PopRemovesLastTurn(c: Log)
    requires WellIndexed(c) && LastUser(c.messages).Some?
    ensures c.turns != [] && c.turns[|c.turns| - 1].start == LastUser(c.messages).value
    ensures Popped(c) == Log(c.messages[..LastUser(c.messages).value], c.turns[..|c.turns| - 1])
  {
    var p := LastUser(c.messages).value;
    LastTurnStarts(c);
    var last := |c.turns| - 1;
    assert c.turns == c.turns[..last] + [c.turns[last]];
    assert StartingBefore(c.turns, p) == c.turns[..last] by {
      StartingBeforeConcat(c.turns[..last], [c.turns[last]], p);
    }
  }

  /** The last turn is the one the last user message starts. */
  lemma LastTurnStarts(c: Log)
    requires WellIndexed(c) && LastUser(c.messages).Some?
    ensures c.turns != [] && c.turns[|c.turns| - 1].start == LastUser(c.messages).value
    ensures forall j :: 0 <= j < |c.turns| - 1 ==> c.turns[j].start < LastUser(c.messages).value
  {
    var p, n, last := LastUser(c.messages).value, |c.messages|, |c.turns| - 1;
    assert StartsTurn(c.turns, p);
    var i :| 0 <= i < |c.turns| && c.turns[i].start == p;
    TurnsOrdered(c.turns, n, i, last);
    assert last >= 1 ==> c.messages[c.turns[last].start].role == User;
    forall j | 0 <= j < last ensures c.turns[j].start < c.turns[last].start {
      TurnsOrdered(c.turns, n, j, last);
    }
  }

  lemma TiledFront(turns: seq<TurnRange>, n: nat)
    requires Tiled(turns, n) && turns != []
    ensures Tiled(turns[..|turns| - 1], turns[|turns| - 1].start)
  {
    var last := |turns| - 1;
    forall j | 0 <= j < last ensures turns[j].end <= turns[last].start {
      TurnsOrdered(turns, n, j, last);
    }
    if last > 0 {
      assert turns[last - 1].end == turns[last].start;
    }
  }

  lemma PopUsersStart(c: Log, p: nat, turns: seq<TurnRange>)
    requires UsersStart(c) && p <= |c.messages|
    requires turns <= c.turns && forall i :: |turns| <= i < |c.turns| ==> c.turns[i].start >= p
    ensures UsersStart(Log(c.messages[..p], turns))
  {
    forall q | 0 <= q < p && c.messages[q].role == User ensures StartsTurn(turns, q) {
      assert StartsTurn(c.turns, q);
      var i :| 0 <= i < |c.turns| && c.turns[i].start == q;
      assert turns[i].start == q;
    }
  }

  lemma PopStartAtUsers(c: Log, p: nat, turns: seq<TurnRange>)
    requires StartAtUsers(c) && p <= |c.messages| && turns <= c.turns && Tiled(turns, p)
    ensures StartAtUsers(Log(c.messages[..p], turns))
  {
    forall i | 1 <= i < |turns| ensures turns[i].start < p && c.messages[turns[i].start].role == User {
      assert turns[i].start < turns[i].end <= p && turns[i] == c.turns[i];
    }
  }

  lemma PopKeeps(c: Log)
    requires WellIndexed(c)
    ensures WellIndexed(Popped(c))
  {
    if LastUser(c.messages).Some? {
      PopRemovesLastTurn(c);
      PopFront(c, LastUser(c.messages).value);
    }
  }

  /** Without the last turn and its messages the index is still right. */
  lemma PopFront(c: Log, p: nat)
    requires WellIndexed(c) && c.turns != [] && c.turns[|c.turns| - 1].start == p
    ensures p <= |c.messages| && WellIndexed(Log(c.messages[..p], c.turns[..|c.turns| - 1]))
  {
    var turns := c.turns[..|c.turns| - 1];
    assert Tiled(turns, p) by { TiledFront(c.turns, |c.messages|); }
    assert UsersStart(Log(c.messages[..p], turns)) by { PopUsersStart(c, p, turns); }
    assert StartAtUsers(Log(c.messages[..p], turns)) by { PopStartAtUsers(c, p, turns); }
  }

  /** Turns that end before the cut go. */
  lemma {:induction false} MovedDownSkips(turns: seq<TurnRange>, n: nat, k: nat)
    requires k <= |turns| && forall i :: 0 <= i < k ==> turns[i].end <= n
    ensures MovedDown(turns, n) == MovedDown(turns[k..], n)
    decreases k
  {
    if k == 0 {
      assert turns[0..] == turns;
    } else {
      MovedDownSkips(turns[1..], n, k - 1);
      assert turns[1..][k - 1..] == turns[k..];
    }
  }

  lemma {:induction false} MovedDownAll(turns: seq<TurnRange>, n: nat)
    requires forall i :: 0 <= i < |turns| ==> turns[i].end > n
    ensures |MovedDown(turns, n)| == |turns|
    ensures forall i :: 0 <= i < |turns| ==> MovedDown(turns, n)[i] == Moved(turns[i], n)
  {
    if turns != [] {
      MovedDownAll(turns[1..], n);
    }
  }

  /** The first turn that reaches past the cut. */
  lemma {:induction false} FirstPast(turns: seq<TurnRange>, len: nat, n: nat, k: nat) returns (f: nat)
    requires Tiled(turns, len) && k <= |turns|
    requires forall i :: 0 <= i < k ==> turns[i].end <= n
    ensures f <= |turns|
    ensures forall i :: 0 <= i < f ==> turns[i].end <= n
    ensures forall i :: f <= i < |turns| ==> turns[i].end > n
    decreases |turns| - k
  {
    if k < |turns| && turns[k].end <= n {
      f := FirstPast(turns, len, n, k + 1);
    } else {
      f := k;
      forall i | k <= i < |turns| ensures turns[i].end > n {
        TurnsOrdered(turns, len, k, i);
      }
    }
  }

  /** What is left of the turns: those from the first that reaches past the cut. */
  lemma MovedDownFrom(turns: seq<TurnRange>, len: nat, n: nat) returns (f: nat)
    requires Tiled(turns, len)
    ensures f <= |turns| && |MovedDown(turns, n)| == |turns| - f
    ensures forall i :: 0 <= i < f ==> turns[i].end <= n
    ensures forall j :: f <= j < |turns| ==>
              turns[j].end > n && MovedDown(turns, n)[j - f] == Moved(turns[j], n)
    ensures forall j :: f < j < |turns| ==> turns[j].start >= n
  {
    f := FirstPast(turns, len, n, 0);
    MovedDownSkips(turns, n, f);
    MovedDownAll(turns[f..], n);
    forall j | f <= j < |turns|
      ensures turns[j].end > n && MovedDown(turns, n)[j - f] == Moved(turns[j], n)
    {
      assert turns[f..][j - f] == turns[j];
    }
    forall j | f < j < |turns| ensures turns[j].start >= n {
      TurnsOrdered(turns, len, f, j);
    }
  }

  lemma TiledMoved(turns: seq<TurnRange>, len: nat, n: nat)
    requires Tiled(turns, len) && n <= len
    ensures Tiled(MovedDown(turns, n), len - n)
  {
    var f := MovedDownFrom(turns, len, n);
    var moved := MovedDown(turns, n);
    forall i | 0 <= i < |moved| ensures moved[i].start < moved[i].end <= len - n {
      assert turns[f + i].end > n;
    }
    forall i, j | 0 <= i && j == i + 1 < |moved| ensures moved[i].end == moved[j].start {
      assert turns[f + i].end > n && turns[f + j].end > n;
    }
    if moved != [] {
      assert turns[|turns| - 1].end > n;
    }
  }

  lemma DropUsersStart(c: Log, n: nat)
    requires WellIndexed(c) && n <= |c.messages|
    ensures UsersStart(Dropped(c, n))
  {
    var f := MovedDownFrom(c.turns, |c.messages|, n);
    var d := Dropped(c, n);
    forall p | 0 <= p < |d.messages| && d.messages[p].role == User ensures StartsTurn(d.turns, p) {
      assert c.messages[n + p].role == User;
      assert StartsTurn(c.turns, n + p);
      var j :| 0 <= j < |c.turns| && c.turns[j].start == n + p;
      assert d.turns[j - f].start == p;
    }
  }

  lemma DropStartAtUsers(c: Log, n: nat)
    requires WellIndexed(c) && n <= |c.messages|
    ensures StartAtUsers(Dropped(c, n))
  {
    var f := MovedDownFrom(c.turns, |c.messages|, n);
    var d := Dropped(c, n);
    forall i | 1 <= i < |d.turns|
      ensures d.turns[i].start < |d.messages| && d.messages[d.turns[i].start].role == User
    {
      var t := c.turns[f + i];
      assert t.end > n && d.turns[i] == Moved(t, n);
      assert c.messages[t.start].role == User;
    }
  }

  lemma DropKeeps(c: Log, n: nat)
    requires WellIndexed(c) && n <= |c.messages|
    ensures WellIndexed(Dropped(c, n))
  {
    TiledMoved(c.turns, |c.messages|, n);
    DropUsersStart(c, n);
    DropStartAtUsers(c, n);
  }

  // ----- whole runs -----

  datatype Op = Push(m: Message) | PopLastTurn | Truncate(budget: nat) | Clear

  function Apply(c: Log, op: Op): Log {
    match op
    case Push(m) => Pushed(c, m)
    case PopLastTurn => Popped(c)
    case Truncate(budget) => Truncated(c, budget)
    case Clear => Log([], [])
  }

  function Run(c: Log, ops: seq<Op>): Log {
    if ops == [] then c else Apply(Run(c, ops[..|ops| - 1]), ops[|ops| - 1])
  }

  /** The index is right after any sequence of operations. */
  lemma {:induction false} AlwaysWellIndexed(ops: seq<Op>)
    ensures WellIndexed(Run(Log([], []), ops))
  {
    if ops != [] {
      AlwaysWellIndexed(ops[..|ops| - 1]);
      var c := Run(Log([], []), ops[..|ops| - 1]);
      match ops[|ops| - 1]
      case Push(m) => PushKeeps(c, m);
      case PopLastTurn => PopKeeps(c);
      case Truncate(budget) =>
        if Cost(c.messages) > budget {
          DropKeeps(c, KeepFrom(c.messages, budget));
        }
      case Clear =>
    }
  }

  function PushedAll(c: Log, ms: seq<Message>): Log {
    if ms == [] then c else Pushed(PushedAll(c, ms[..|ms| - 1]), ms[|ms| - 1])
  }

  lemma {:induction false} RepliesExtendTurn(c: Log, user: Message, replies: seq<Message>)
    requires user.role == User && forall i :: 0 <= i < |replies| ==> replies[i].role != User
    ensures var n := |c.messages|;
            PushedAll(Pushed(c, user), replies) ==
            Log(c.messages + [user] + replies, c.turns + [TurnRange(n, n + 1 + |replies|)])
    decreases |replies|
  {
    if replies == [] {
      assert c.messages + [user] + replies == c.messages + [user];
    } else {
      var front, last := replies[..|replies| - 1], replies[|replies| - 1];
      RepliesExtendTurn(c, user, front);
      var n := |c.messages|;
      var before := PushedAll(Pushed(c, user), front);
      assert before.turns == c.turns + [TurnRange(n, n + 1 + |front|)];
      assert Pushed(before, last).turns == c.turns + [TurnRange(n, n + 1 + |replies|)];
      assert c.messages + [user] + replies == (c.messages + [user] + front) + [last];
    }
  }

  lemma {:induction false} LastUserAt(ms: seq<Message>, p: nat)
    requires p < |ms| && ms[p].role == User && forall k :: p < k < |ms| ==> ms[k].role != User
    ensures LastUser(ms) == Some(p)
  {
  }

  /** Popping undoes a prompt and everything said in reply to it, exactly. */
  lemma {:induction false} PopUndoesTurn(c: Log, user: Message, replies: seq<Message>)
    requires WellIndexed(c)
    requires user.role == User && forall i :: 0 <= i < |replies| ==> replies[i].role != User
    ensures Popped(PushedAll(Pushed(c, user), replies)) == c
  {
    var n := |c.messages|;
    var ms := c.messages + [user] + replies;
    OneUserLast(c.messages, user, replies, ms);
    PopsTo(c, ms, TurnRange(n, n + 1 + |replies|));
    RepliesExtendTurn(c, user, replies);
  }

  lemma OneUserLast(messages: seq<Message>, user: Message, replies: seq<Message>, ms: seq<Message>)
    requires ms == messages + [user] + replies
    requires user.role == User && forall i :: 0 <= i < |replies| ==> replies[i].role != User
    ensures messages <= ms && |messages| < |ms| && ms[|messages|].role == User
    ensures forall k :: |messages| < k < |ms| ==> ms[k].role != User
  {
    forall k | |messages| < k < |ms| ensures ms[k].role != User {
      assert ms[k] == replies[k - |messages| - 1];
    }
  }

  lemma {:induction false} PopsTo(c: Log, ms: seq<Message>, t: TurnRange)
    requires WellIndexed(c) && c.messages <= ms && t.start == |c.messages| < |ms|
    requires ms[t.start].role == User && forall k :: t.start < k < |ms| ==> ms[k].role != User
    ensures Popped(Log(ms, c.turns + [t])) == c
  {
    assert LastUser(ms) == Some(t.start) by { LastUserAt(ms, t.start); }
    assert StartingBefore(c.turns + [t], t.start) == c.turns by {
      StartingBeforeConcat(c.turns, [t], t.start);
    }
    assert ms[..t.start] == c.messages;
  }

  /** What a turn shows. */
  function Shown(c: Log, turn: nat): seq<Message>
    requires turn < |c.turns| && c.turns[turn].start <= c.turns[turn].end <= |c.messages|
  {
    c.messages[c.turns[turn].start..c.turns[turn].end]
  }

  function Max(a: nat, b: nat): nat {
    if a > b then a else b
  }

  /** A turn shows exactly the messages it had that are not among the first `n`. */
  predicate ShowsRest(messages: seq<Message>, n: nat, was: TurnRange, left: seq<Message>, now: TurnRange) {
    && was.start < was.end <= |messages| && n < was.end
    && now.start < now.end <= |left|
    && left[now.start..now.end] == messages[Max(was.start, n)..was.end]
  }

  /** When `n` messages have gone, the turns from `first` on survive in order. */
  ghost predicate TurnsSurvive(c: Log, d: Log, n: nat, first: nat) {
    && first <= |c.turns| && |d.turns| == |c.turns| - first
    && (forall i :: 0 <= i < first ==> c.turns[i].end <= n)
    && (forall j :: 0 <= j < |d.turns| ==>
          ShowsRest(c.messages, n, c.turns[first + j], d.messages, d.turns[j]))
  }

  lemma {:induction false} DropShown(c: Log, n: nat) returns (first: nat)
    requires WellIndexed(c) && n <= |c.messages|
    ensures TurnsSurvive(c, Dropped(c, n), n, first)
  {
    first := MovedDownFrom(c.turns, |c.messages|, n);
    var turns := MovedDown(c.turns, n);
    forall j | 0 <= j < |turns|
      ensures ShowsRest(c.messages, n, c.turns[first + j], c.messages[n..], turns[j])
    {
      var was := c.turns[first + j];
      assert was.end > n && turns[j] == Moved(was, n);
      MovedSlice(c.messages, n, was);
    }
  }

  lemma MovedSlice(messages: seq<Message>, n: nat, t: TurnRange)
    requires n < t.end <= |messages| && t.start < t.end
    ensures var now := Moved(t, n);
            now.start < now.end <= |messages| - n &&
            messages[n..][now.start..now.end] == messages[Max(t.start, n)..t.end]
  {
  }

  /** After truncation the turns that reach past the removed messages survive in order, and
      each shows exactly what is left of it. */
  lemma {:induction false} TruncationShows(c: Log, budget: nat)
    requires WellIndexed(c)
    ensures var d := Truncated(c, budget);
            |d.messages| <= |c.messages| &&
            var n: nat := |c.messages| - |d.messages|;
            exists first: nat :: TurnsSurvive(c, d, n, first)
  {
    if Cost(c.messages) <= budget {
      assert TurnsSurvive(c, c, 0, 0);
    } else {
      var first := DropShown(c, KeepFrom(c.messages, budget));
    }
  }

  /** A user message opens a turn of its own; any other one joins the last turn, or none when
      there is none. All other turns show what they showed. */
  lemma {:induction false} PushShows(c: Log, m: Message)
    requires WellIndexed(c)
    ensures var d := Pushed(c, m);
      && WellIndexed(d) && d.messages == c.messages + [m]
      && (m.role == User ==> |d.turns| == |c.turns| + 1 && Shown(d, |c.turns|) == [m])
      && (m.role != User ==> |d.turns| == |c.turns|)
      && forall j :: 0 <= j < |c.turns| ==>
           Shown(d, j) == if m.role != User && j == |c.turns| - 1 then Shown(c, j) + [m] else Shown(c, j)
  {
    PushKeeps(c, m);
    forall j | 0 <= j < |c.turns|
      ensures Shown(Pushed(c, m), j) ==
              if m.role != User && j == |c.turns| - 1 then Shown(c, j) + [m] else Shown(c, j)
    {
      PushShowsAt(c, m, j);
    }
  }

  lemma PushShowsAt(c: Log, m: Message, j: nat)
    requires Tiled(c.turns, |c.messages|) && Tiled(Pushed(c, m).turns, |Pushed(c, m).messages|) && j < |c.turns|
    ensures Shown(Pushed(c, m), j) ==
            if m.role != User && j == |c.turns| - 1 then Shown(c, j) + [m] else Shown(c, j)
  {
    var t, all := c.turns[j], c.messages + [m];
    assert all[t.start..t.end] == c.messages[t.start..t.end];
    if m.role != User && j == |c.turns| - 1 {
      assert all[t.start..|all|] == c.messages[t.start..] + [m];
      assert c.messages[t.start..t.end] == c.messages[t.start..];
    }
  }

  /** Without a user message there is nothing to pop. */
  lemma PopNeedsUser(c: Log)
    requires forall i :: 0 <= i < |c.messages| ==> c.messages[i].role != User
    ensures Popped(c) == c
  {
  }

  /** Popping drops the last turn and leaves every other one showing what it showed. */
  lemma {:induction false} PopShows(c: Log)
    requires WellIndexed(c) && LastUser(c.messages).Some?
    ensures var d := Popped(c);
      && c.turns != [] && |d.turns| == |c.turns| - 1
      && c.messages == d.messages + Shown(c, |c.turns| - 1)
      && forall j :: 0 <= j < |d.turns| ==>
           d.turns[j].start < d.turns[j].end <= |d.messages| && Shown(d, j) == Shown(c, j)
  {
    PopRemovesLastTurn(c);
    FrontShows(c, Log(c.messages[..LastUser(c.messages).value], c.turns[..|c.turns| - 1]));
    LastTurnReachesEnd(c);
  }

  /** Without the last turn, the others show what they showed. */
  lemma FrontShows(c: Log, d: Log)
    requires Tiled(c.turns, |c.messages|) && c.turns != []
    requires d == Log(c.messages[..c.turns[|c.turns| - 1].start], c.turns[..|c.turns| - 1])
    ensures forall j :: 0 <= j < |d.turns| ==>
              d.turns[j].start < d.turns[j].end <= |d.messages| && Shown(d, j) == Shown(c, j)
  {
    var last := |c.turns| - 1;
    forall j | 0 <= j < last
      ensures d.turns[j].start < d.turns[j].end <= |d.messages| && Shown(d, j) == Shown(c, j)
    {
      assert d.turns[j] == c.turns[j];
      TurnsOrdered(c.turns, |c.messages|, j, last);
    }
  }

  lemma LastTurnReachesEnd(c: Log)
    requires Tiled(c.turns, |c.messages|) && c.turns != []
    ensures var last := c.turns[|c.turns| - 1];
            last.start <= last.end == |c.messages| &&
            c.messages == c.messages[..last.start] + c.messages[last.start..last.end]
  {
    var last := c.turns[|c.turns| - 1];
    assert c.messages[last.start..last.end] == c.messages[last.start..];
  }

  /** The cost is the sum of the token estimates. */
  lemma {:induction false} CostSums(xs: seq<Message>, m: Message, ys: seq<Message>)
    ensures Cost(xs + [m] + ys) == Cost(xs) + m.tokens + Cost(ys)
  {
    var all := xs + [m] + ys;
    if xs == [] {
      assert all[0] == m && all[1..] == ys;
    } else {
      assert all[0] == xs[0] && all[1..] == xs[1..] + [m] + ys;
      CostSums(xs[1..], m, ys);
    }
  }

  /** Truncation fits the budget, keeps a suffix, and no longer suffix fits. */
  lemma TruncationIsLongest(c: Log, budget: nat)
    ensures var kept := Truncated(c, budget).messages;
            && Cost(kept) <= budget
            && kept <= c.messages[|c.messages| - |kept|..]
            && forall j :: 0 <= j < |c.messages| - |kept| ==> Cost(c.messages[j..]) > budget
  {
    var k := KeepFrom(c.messages, budget);
    var kept := Truncated(c, budget).messages;
    if Cost(c.messages) <= budget {
      assert c.messages[0..] == c.messages;
    }
  }

  /** The most recent turn survives a truncation whole exactly when it fits the budget by
      itself. */
  lemma LastTurnKeptExactly(c: Log, budget: nat)
    requires WellIndexed(c) && c.turns != []
    ensures var t := c.turns[|c.turns| - 1];
            |c.messages| - |Truncated(c, budget).messages| <= t.start <==>
            Cost(c.messages[t.start..]) <= budget
  {
    var t := c.turns[|c.turns| - 1];
    if Cost(c.messages) <= budget {
      assert c.messages[0..] == c.messages;
      CostDecreases(c.messages, 0, t.start);
    } else {
      var k := KeepFrom(c.messages, budget);
      if k <= t.start {
        CostDecreases(c.messages, k, t.start);
      }
    }
  }

  /** A single message over the budget is dropped, and with it the only turn. */
  lemma EvenTheLastTurnCanGo(m: Message, budget: nat)
    requires m.role == User && m.tokens > budget
    ensures Truncated(Pushed(Log([], []), m), budget) == Log([], [])
  {
    var c := Pushed(Log([], []), m);
    assert c.messages == [m] && c.messages[1..] == [];
    assert Cost([m]) == m.tokens;
    assert Cost([]) == 0;
    assert KeepFrom(c.messages, budget) == 1;
    assert c.turns == [TurnRange(0, 1)] && c.turns[1..] == [];
    assert MovedDown(c.turns, 1) == [];
  }
}
