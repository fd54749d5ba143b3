/** Assembling tool calls from an interleaved event stream (crates/api/src/streaming.rs). */
module Streaming {
  import opened Values

  datatype Event =
    | BlockStart(index: nat, contentType: string, toolId: Option<string>, toolName: Option<string>)
    | Delta(index: nat, delta: string)
    | BlockStop(index: nat)
    | Other

  datatype Accumulator = Accumulator(index: nat, id: string, name: string, jsonBuffer: string, completed: bool)

  datatype BlockType = Text | ToolUse | Unknown

  /** A finished call; the input is the parsed buffer. */
  datatype CompletedToolBlock = CompletedToolBlock(id: string, name: string, input: Result<Json>)

  datatype State = State(active: seq<Accumulator>, completed: seq<Accumulator>, text: string,
                         blockTypes: seq<BlockType>)

  const EMPTY := State([], [], "", [])

  predicate IsToolStart(e: Event) {
    e.BlockStart? && e.contentType == "tool_use"
  }

  function OrEmpty(s: Option<string>): string {
    match s
    case Some(t) => t
    case None => ""
  }

  function Opened(e: Event): Accumulator
    requires e.BlockStart?
  {
    Accumulator(e.index, OrEmpty(e.toolId), OrEmpty(e.toolName), "", false)
  }

  function Appended(a: Accumulator, delta: string): Accumulator {
    a.(jsonBuffer := a.jsonBuffer + delta)
  }

  function Finalized(a: Accumulator): Accumulator {
    a.(completed := true)
  }

  /** An empty buffer is an empty object: a tool that takes no arguments. */
  function Input(buffer: string, parse: string -> Result<Json>): Result<Json> {
    if buffer == "" then Ok(Obj(map[])) else parse(buffer)
  }

  // ----- one step -----

  function TypeAt(types: seq<BlockType>, i: nat): BlockType {
    if i < |types| then types[i] else Unknown
  }

  /** The position of the first accumulator of a block, or the length. */
  function Position(list: seq<Accumulator>, i: nat): (pos: nat)
    ensures pos <= |list|
    ensures pos < |list| ==> list[pos].index == i
    ensures forall k :: 0 <= k < pos ==> list[k].index != i
  {
    if list == [] then 0 else if list[0].index == i then 0 else 1 + Position(list[1..], i)
  }

  function Extended(types: seq<BlockType>, i: nat): (r: seq<BlockType>)
    ensures |r| == if |types| > i then |types| else i + 1
  {
    types + seq(if |types| > i then 0 else i + 1 - |types|, _ => Unknown)
  }

  function AppendTo(list: seq<Accumulator>, i: nat, delta: string): seq<Accumulator> {
    var pos := Position(list, i);
    if pos < |list| then list[pos := Appended(list[pos], delta)] else list
  }

  function RemoveFirst(list: seq<Accumulator>, i: nat): seq<Accumulator> {
    var pos := Position(list, i);
    if pos < |list| then list[..pos] + list[pos + 1..] else list
  }

  /** The accumulator a stop finishes. */
  function Stopped(s: State, e: Event): Option<Accumulator> {
    if e.BlockStop? && TypeAt(s.blockTypes, e.index) == ToolUse then
      var pos := Position(s.active, e.index);
      if pos < |s.active| then Some(Finalized(s.active[pos])) else None
    else None
  }

  /** What a stop hands to the caller: the finished call with its parsed input. */
  function Returned(s: State, e: Event, parse: string -> Result<Json>): Option<CompletedToolBlock> {
    match Stopped(s, e)
    case Some(a) => Some(CompletedToolBlock(a.id, a.name, Input(a.jsonBuffer, parse)))
    case None => None
  }

  function Step(s: State, e: Event): State {
    match e
    case BlockStart(i, _, _, _) =>
      var types := Extended(s.blockTypes, i);
      if IsToolStart(e)
      then s.(blockTypes := types[i := ToolUse], active := s.active + [Opened(e)])
      else s.(blockTypes := types[i := Text])
    case Delta(i, delta) =>
      if TypeAt(s.blockTypes, i) == ToolUse
      then s.(active := AppendTo(s.active, i, delta))
      else s.(text := s.text + delta)
    case BlockStop(i) =>
      (match Stopped(s, e)
       case Some(a) => s.(active := RemoveFirst(s.active, i), completed := s.completed + [a])
       case None => s)
    case Other => s
  }

  function Run(events: seq<Event>): State {
    if events == [] then EMPTY else Step(Run(events[..|events| - 1]), events[|events| - 1])
  }

  // ----- the parser -----

  class StreamingToolParser {
    var active: seq<Accumulator>
    var completed: seq<Accumulator>
    var textBuffer: string
    var blockTypes: seq<BlockType>
    const parse: string -> Result<Json>

    function Current(): State
      reads this
    {
      State(active, completed, textBuffer, blockTypes)
    }

    constructor (parse: string -> Result<Json>)
      ensures Current() == EMPTY && this.parse == parse
    {
      active, completed, textBuffer, blockTypes := [], [], "", [];
      this.parse := parse;
    }

    method Find(index: nat) returns (pos: nat)
      ensures pos == Position(active, index)
    {
      pos := 0;
      while pos < |active| && active[pos].index != index
        invariant pos <= |active|
        invariant Position(active, index) == pos + Position(active[pos..], index)
      {
        assert active[pos..][1..] == active[pos + 1..];
        pos := pos + 1;
      }
    }

    /** One event; a block when the event finishes one. */
    method Process(event: Event) returns (block: Option<CompletedToolBlock>)
      modifies this
      ensures Current() == Step(old(Current()), event)
      ensures block == Returned(old(Current()), event, parse)
    {
      block := None;
      match event {
        case BlockStart(index, contentType, toolId, toolName) =>
          while |blockTypes| <= index
            invariant Extended(blockTypes, index) == Extended(old(blockTypes), index)
            invariant active == old(active) && completed == old(completed) && textBuffer == old(textBuffer)
            decreases index + 1 - |blockTypes|
          {
            blockTypes := blockTypes + [Unknown];
          }
          assert Extended(blockTypes, index) == blockTypes;
          if contentType == "tool_use" {
            blockTypes := blockTypes[index := ToolUse];
            active := active + [Accumulator(index, OrEmpty(toolId), OrEmpty(toolName), "", false)];
          } else {
            blockTypes := blockTypes[index := Text];
          }
        case Delta(index, delta) =>
          if TypeAt(blockTypes, index) == ToolUse {
            var pos := Find(index);
            if pos < |active| {
              active := active[pos := Appended(active[pos], delta)];
            }
          } else {
            textBuffer := textBuffer + delta;
          }
        case BlockStop(index) =>
          if TypeAt(blockTypes, index) == ToolUse {
            var pos := Find(index);
            if pos < |active| {
              var acc := Finalized(active[pos]);
              active := active[..pos] + active[pos + 1..];
              completed := completed + [acc];
              block := Some(CompletedToolBlock(acc.id, acc.name, Input(acc.jsonBuffer, parse)));
            }
          }
        case Other =>
      }
    }

    /** Hands the finished accumulators over, leaving none. */
    method TakeCompleted() returns (taken: seq<Accumulator>)
      modifies this`completed
      ensures taken == old(completed) && completed == []
    {
      taken := completed;
      completed := [];
    }

    method Reset()
      modifies this
      ensures Current() == EMPTY
    {
      active, completed, textBuffer, blockTypes := [], [], "", [];
    }

    /** Active and finished calls: for a parser that was fed a stream and from which nothing
        was taken, the number of tool calls the stream started. */
    method ToolCount() returns (n: nat)
      ensures n == |active| + |completed|
      ensures forall events :: Current() == Run(events) ==> n == ToolStarts(events)
    {
      n := |active| + |completed|;
      forall events | Current() == Run(events) ensures n == ToolStarts(events) {
        CountsToolStarts(events);
      }
    }
  }

  // ----- blocks do not interfere -----

  predicate Concerns(e: Event, i: nat) {
    !e.Other? && e.index == i
  }

  /** The events of one block. */
  function Project(events: seq<Event>, i: nat): seq<Event> {
    if events == [] then []
    else
      var front, last := Project(events[..|events| - 1], i), events[|events| - 1];
      if Concerns(last, i) then front + [last] else front
  }

  function Select(list: seq<Accumulator>, i: nat): seq<Accumulator> {
    if list == [] then []
    else SelectOne(list[0], i) + Select(list[1..], i)
  }

  function SelectOne(a: Accumulator, i: nat): seq<Accumulator> {
    if a.index == i then [a] else []
  }

  lemma SelectCons(x: Accumulator, rest: seq<Accumulator>, i: nat)
    ensures Select([x] + rest, i) == SelectOne(x, i) + Select(rest, i)
  {
    assert ([x] + rest)[1..] == rest;
  }

  lemma {:induction false} SelectConcat(xs: seq<Accumulator>, ys: seq<Accumulator>, i: nat)
    ensures Select(xs + ys, i) == Select(xs, i) + Select(ys, i)
  {
    if xs == [] {
      assert xs + ys == ys;
    } else {
      var x, rest := xs[0], xs[1..];
      assert xs == [x] + rest && xs + ys == [x] + (rest + ys);
      SelectConcat(rest, ys, i);
      SelectCons(x, rest, i);
      SelectCons(x, rest + ys, i);
      var head, a, b := SelectOne(x, i), Select(rest, i), Select(ys, i);
      assert head + (a + b) == (head + a) + b;
    }
  }

  lemma SelectAround(xs: seq<Accumulator>, x: Accumulator, ys: seq<Accumulator>, i: nat)
    ensures Select(xs + ([x] + ys), i) == Select(xs, i) + (SelectOne(x, i) + Select(ys, i))
  {
    SelectConcat(xs, [x] + ys, i);
    SelectCons(x, ys, i);
  }

  lemma {:induction false} SelectNone(xs: seq<Accumulator>, i: nat)
    requires forall k :: 0 <= k < |xs| ==> xs[k].index != i
    ensures Select(xs, i) == []
  {
    if xs != [] {
      SelectNone(xs[1..], i);
    }
  }

  lemma {:induction false} SelectAll(xs: seq<Accumulator>, i: nat)
    ensures forall k :: 0 <= k < |Select(xs, i)| ==> Select(xs, i)[k].index == i
  {
    if xs != [] {
      SelectAll(xs[1..], i);
    }
  }

  /** A list around the first accumulator of a block. */
  lemma SelectSplit(list: seq<Accumulator>, i: nat, j: nat)
    requires Position(list, i) < |list|
    ensures var pos := Position(list, i);
            && Select(list, i) == [list[pos]] + Select(list[pos + 1..], i)
            && (i != j ==> Select(list, j) == Select(list[..pos], j) + Select(list[pos + 1..], j))
  {
    var pos := Position(list, i);
    var a, x, b := list[..pos], list[pos], list[pos + 1..];
    assert list == a + ([x] + b);
    SelectNone(a, i);
    SelectAround(a, x, b, i);
    SelectAround(a, x, b, j);
    assert [] + ([x] + Select(b, i)) == [x] + Select(b, i);
    assert [] + Select(b, j) == Select(b, j);
  }

  lemma AppendHead(x: Accumulator, rest: seq<Accumulator>, delta: string)
    ensures AppendTo([x] + rest, x.index, delta) == [Appended(x, delta)] + rest
  {
  }

  lemma AppendSelects(list: seq<Accumulator>, i: nat, delta: string, j: nat)
    ensures Select(AppendTo(list, i, delta), j) ==
            if i == j then AppendTo(Select(list, j), i, delta) else Select(list, j)
  {
    var pos := Position(list, i);
    if pos < |list| {
      var a, x, b := list[..pos], list[pos], list[pos + 1..];
      var x' := Appended(x, delta);
      assert AppendTo(list, i, delta) == a + ([x'] + b);
      SelectAround(a, x', b, j);
      SelectSplit(list, i, j);
      if i == j {
        SelectNone(a, i);
        AppendHead(x, Select(b, i), delta);
        assert [] + ([x'] + Select(b, i)) == [x'] + Select(b, i);
      } else {
        assert [] + Select(b, j) == Select(b, j);
      }
    } else {
      SelectNone(list, i);
    }
  }

  lemma RemoveSelects(list: seq<Accumulator>, i: nat, j: nat)
    ensures Select(RemoveFirst(list, i), j) ==
            if i == j then RemoveFirst(Select(list, j), i) else Select(list, j)
    ensures Position(list, i) < |list| <==> Select(list, i) != []
    ensures Position(list, i) < |list| ==> Select(list, i)[0] == list[Position(list, i)]
  {
    var pos := Position(list, i);
    if pos < |list| {
      SelectSplit(list, i, j);
      SelectNone(list[..pos], i);
      SelectConcat(list[..pos], list[pos + 1..], j);
      var s := Select(list, i);
      assert s[1..] == Select(list[pos + 1..], i);
    } else {
      SelectNone(list, i);
    }
  }

  /** What a parser knows about one block. */
  datatype View = View(active: seq<Accumulator>, completed: seq<Accumulator>, blockType: BlockType)

  function ViewOf(s: State, i: nat): View {
    View(Select(s.active, i), Select(s.completed, i), TypeAt(s.blockTypes, i))
  }

  /** One event, as one block sees it. */
  function ViewStep(v: View, e: Event, i: nat): View {
    if !Concerns(e, i) then v
    else
      match e
      case BlockStart(_, _, _, _) =>
        if IsToolStart(e) then v.(active := v.active + [Opened(e)], blockType := ToolUse)
        else v.(blockType := Text)
      case Delta(_, delta) =>
        if v.blockType == ToolUse then v.(active := AppendTo(v.active, i, delta)) else v
      case BlockStop(_) =>
        if v.blockType == ToolUse && v.active != []
        then v.(active := RemoveFirst(v.active, i), completed := v.completed + [Finalized(v.active[0])])
        else v
  }

  lemma SelectSnoc(list: seq<Accumulator>, a: Accumulator, i: nat)
    ensures Select(list + [a], i) == if a.index == i then Select(list, i) + [a] else Select(list, i)
  {
    SelectConcat(list, [a], i);
    assert [a][1..] == [];
    assert Select([a], i) == SelectOne(a, i);
  }

  lemma StartView(s: State, e: Event, i: nat)
    requires e.BlockStart?
    ensures ViewOf(Step(s, e), i) == ViewStep(ViewOf(s, i), e, i)
  {
    SelectSnoc(s.active, Opened(e), i);
  }

  lemma StopView(s: State, e: Event, i: nat)
    requires e.BlockStop?
    ensures ViewOf(Step(s, e), i) == ViewStep(ViewOf(s, i), e, i)
  {
    RemoveSelects(s.active, e.index, i);
    if Stopped(s, e).Some? {
      var a := Stopped(s, e).value;
      SelectSnoc(s.completed, a, i);
      assert a == Finalized(s.active[Position(s.active, e.index)]) && a.index == e.index;
      if Concerns(e, i) {
        assert Select(s.active, i)[0] == s.active[Position(s.active, i)];
      }
    } else {
      assert Step(s, e) == s;
    }
  }

  lemma StepView(s: State, e: Event, i: nat)
    ensures ViewOf(Step(s, e), i) == ViewStep(ViewOf(s, i), e, i)
  {
    match e
    case BlockStart(_, _, _, _) => StartView(s, e, i);
    case Delta(j, delta) => AppendSelects(s.active, j, delta, i);
    case BlockStop(_) => StopView(s, e, i);
    case Other =>
  }

  /** However blocks are interleaved, what the parser holds for one block is what it would
      hold had it been fed that block's events alone. */
  lemma {:induction false} Demultiplexes(events: seq<Event>, i: nat)
    ensures ViewOf(Run(events), i) == ViewOf(Run(Project(events, i)), i)
  {
    if events != [] {
      var front, last := events[..|events| - 1], events[|events| - 1];
      var own := Project(front, i);
      Demultiplexes(front, i);
      StepView(Run(front), last, i);
      if Concerns(last, i) {
        StepView(Run(own), last, i);
        assert (own + [last])[..|own|] == own;
      }
    }
  }

  // ----- against one buffer per block -----

  /** The obvious assembler: at most one open block for each index. A new block at an index
      replaces the one open there. */
  datatype Blocks = Blocks(open: map<nat, Accumulator>, done: seq<Accumulator>)

  function Assemble(b: Blocks, e: Event): Blocks {
    match e
    case BlockStart(i, _, _, _) =>
      if IsToolStart(e) then b.(open := b.open[i := Opened(e)]) else b.(open := b.open - {i})
    case Delta(i, delta) =>
      if i in b.open then b.(open := b.open[i := Appended(b.open[i], delta)]) else b
    case BlockStop(i) =>
      if i in b.open then Blocks(b.open - {i}, b.done + [Finalized(b.open[i])]) else b
    case Other => b
  }

  function Assembled(events: seq<Event>): Blocks {
    if events == [] then Blocks(map[], [])
    else Assemble(Assembled(events[..|events| - 1]), events[|events| - 1])
  }

  /** The event starts a block at an index where a tool block is open. */
  predicate Restarts(b: Blocks, e: Event) {
    e.BlockStart? && e.index in b.open
  }

  predicate NeverRestarts(events: seq<Event>) {
    events == [] ||
    (NeverRestarts(events[..|events| - 1]) &&
     !Restarts(Assembled(events[..|events| - 1]), events[|events| - 1]))
  }

  function OpenAt(b: Blocks, i: nat): seq<Accumulator> {
    if i in b.open then [b.open[i]] else []
  }

  /** The same finished blocks in the same order, and the same open ones. */
  ghost predicate Agree(s: State, b: Blocks) {
    && s.completed == b.done
    && |s.active| == |b.open|
    && forall i: nat :: Select(s.active, i) == OpenAt(b, i)
  }

  ghost predicate OpenAreTools(s: State, b: Blocks) {
    forall i :: i in b.open ==> TypeAt(s.blockTypes, i) == ToolUse
  }

  lemma AgreeAt(s: State, b: Blocks, e: Event, i: nat)
    requires Select(s.active, i) == OpenAt(b, i) && !Restarts(b, e)
    requires i in b.open ==> TypeAt(s.blockTypes, i) == ToolUse
    ensures Select(Step(s, e).active, i) == OpenAt(Assemble(b, e), i)
    ensures i in Assemble(b, e).open ==> TypeAt(Step(s, e).blockTypes, i) == ToolUse
  {
    StepView(s, e, i);
    SelectAll(s.active, i);
    ViewAgrees(ViewOf(s, i), b, e, i);
  }

  /** The same, on what one block sees. */
  lemma ViewAgrees(v: View, b: Blocks, e: Event, i: nat)
    requires v.active == OpenAt(b, i) && !Restarts(b, e)
    requires forall k :: 0 <= k < |v.active| ==> v.active[k].index == i
    requires i in b.open ==> v.blockType == ToolUse
    ensures ViewStep(v, e, i).active == OpenAt(Assemble(b, e), i)
    ensures i in Assemble(b, e).open ==> ViewStep(v, e, i).blockType == ToolUse
  {
    if i in b.open && Concerns(e, i) {
      assert v.active[0] == b.open[i];
      OnlyOne(b.open[i], i, if e.Delta? then e.delta else "");
    } else if Concerns(e, i) && e.Delta? {
      assert AppendTo([], i, e.delta) == [];
    }
  }

  lemma OnlyOne(a: Accumulator, i: nat, delta: string)
    requires a.index == i
    ensures AppendTo([a], i, delta) == [Appended(a, delta)]
    ensures RemoveFirst([a], i) == []
  {
  }

  lemma AgreeDone(s: State, b: Blocks, e: Event)
    requires Agree(s, b) && OpenAreTools(s, b)
    ensures Step(s, e).completed == Assemble(b, e).done
  {
    if e.BlockStop? {
      RemoveSelects(s.active, e.index, e.index);
      assert Select(s.active, e.index) == OpenAt(b, e.index);
    }
  }

  /** Without restarts the parser is the obvious assembler. */
  lemma {:induction false} AgreesWithoutRestarts(events: seq<Event>)
    requires NeverRestarts(events)
    ensures Agree(Run(events), Assembled(events)) && OpenAreTools(Run(events), Assembled(events))
  {
    if events != [] {
      var front, last := events[..|events| - 1], events[|events| - 1];
      AgreesWithoutRestarts(front);
      var s, b := Run(front), Assembled(front);
      AgreeDone(s, b, last);
      StepCounts(s, last);
      AssembleCounts(b, last);
      forall i: nat
        ensures Select(Step(s, last).active, i) == OpenAt(Assemble(b, last), i)
        ensures i in Assemble(b, last).open ==> TypeAt(Step(s, last).blockTypes, i) == ToolUse
      {
        AgreeAt(s, b, last, i);
      }
    }
  }

  // ----- nothing is lost, nothing is made up -----

  function ToolStarts(events: seq<Event>): nat {
    if events == [] then 0
    else ToolStarts(events[..|events| - 1]) + (if IsToolStart(events[|events| - 1]) then 1 else 0)
  }

  function RestartCount(events: seq<Event>): nat {
    if events == [] then 0
    else
      RestartCount(events[..|events| - 1]) +
      (if Restarts(Assembled(events[..|events| - 1]), events[|events| - 1]) then 1 else 0)
  }

  lemma StepCounts(s: State, e: Event)
    ensures |Step(s, e).active| + |Step(s, e).completed| ==
            |s.active| + |s.completed| + (if IsToolStart(e) then 1 else 0)
  {
  }

  lemma {:induction false} CountsToolStarts(events: seq<Event>)
    ensures |Run(events).active| + |Run(events).completed| == ToolStarts(events)
  {
    if events != [] {
      CountsToolStarts(events[..|events| - 1]);
      StepCounts(Run(events[..|events| - 1]), events[|events| - 1]);
    }
  }

  lemma AssembleCounts(b: Blocks, e: Event)
    ensures |Assemble(b, e).open| + |Assemble(b, e).done| + (if Restarts(b, e) then 1 else 0) ==
            |b.open| + |b.done| + (if IsToolStart(e) then 1 else 0)
  {
    if !e.Other? {
      var i, b' := e.index, Assemble(b, e);
      assert |b.open| == |b.open.Keys| && |b'.open| == |b'.open.Keys|;
      if e.BlockStart? {
        assert b'.open.Keys == if IsToolStart(e) then b.open.Keys + {i} else b.open.Keys - {i};
      } else if e.BlockStop? && i in b.open {
        assert b'.open.Keys == b.open.Keys - {i};
      } else {
        assert b'.open.Keys == b.open.Keys;
      }
    }
  }

  /** A restart loses the block it replaces, in the obvious assembler. */
  lemma {:induction false} RestartsLoseBlocks(events: seq<Event>)
    ensures |Assembled(events).open| + |Assembled(events).done| + RestartCount(events) == ToolStarts(events)
    ensures RestartCount(events) == 0 <==> NeverRestarts(events)
  {
    if events != [] {
      RestartsLoseBlocks(events[..|events| - 1]);
      AssembleCounts(Assembled(events[..|events| - 1]), events[|events| - 1]);
    }
  }

  /** The parser and the obvious assembler agree exactly on the streams that never start a
      block at an index whose tool block is still open. */
  lemma AgreesExactly(events: seq<Event>)
    ensures Agree(Run(events), Assembled(events)) <==> NeverRestarts(events)
  {
    if NeverRestarts(events) {
      AgreesWithoutRestarts(events);
    }
    CountsToolStarts(events);
    RestartsLoseBlocks(events);
  }

  /** The deltas of one block, in order. */
  function DeltasOf(events: seq<Event>, i: nat): string {
    if events == [] then ""
    else
      var front, last := DeltasOf(events[..|events| - 1], i), events[|events| - 1];
      if last.Delta? && last.index == i then front + last.delta else front
  }

  lemma {:induction false} OpenBuffer(before: seq<Event>, start: Event, middle: seq<Event>)
    requires IsToolStart(start)
    requires forall k :: 0 <= k < |middle| ==> Concerns(middle[k], start.index) ==> middle[k].Delta?
    ensures var b := Assembled(before + [start] + middle);
            start.index in b.open &&
            b.open[start.index] == Opened(start).(jsonBuffer := DeltasOf(middle, start.index))
    decreases |middle|
  {
    var all := before + [start] + middle;
    if middle == [] {
      assert all[..|all| - 1] == before && all[|all| - 1] == start;
    } else {
      var front, last := middle[..|middle| - 1], middle[|middle| - 1];
      assert all[..|all| - 1] == before + [start] + front && all[|all| - 1] == last;
      OpenBuffer(before, start, front);
    }
  }

  /** The buffer of a finished tool block is the concatenation of that block's own deltas
      between its start and its stop, whatever other blocks do in between. */
  lemma FinishedBuffer(before: seq<Event>, start: Event, middle: seq<Event>, stop: Event)
    requires IsToolStart(start) && stop == BlockStop(start.index)
    requires forall k :: 0 <= k < |middle| ==> Concerns(middle[k], start.index) ==> middle[k].Delta?
    requires NeverRestarts(before + [start] + middle + [stop])
    ensures var earlier, all := before + [start] + middle, before + [start] + middle + [stop];
            Run(all).completed == Run(earlier).completed +
              [Accumulator(start.index, OrEmpty(start.toolId), OrEmpty(start.toolName),
                           DeltasOf(middle, start.index), true)]
  {
    var earlier, all := before + [start] + middle, before + [start] + middle + [stop];
    assert all[..|all| - 1] == earlier && all[|all| - 1] == stop;
    OpenBuffer(before, start, middle);
    AgreesWithoutRestarts(earlier);
    AgreeDone(Run(earlier), Assembled(earlier), stop);
  }

  /** `block` is the call that starts at `start` and whose deltas spell `deltas`: it has the
      identifier and the name of its start, or empty ones, and its input is what the reader of
      buffers makes of the deltas, or an empty object when there are none. */
  predicate IsCall(block: CompletedToolBlock, start: Event, deltas: string, parse: string -> Result<Json>) {
    && start.BlockStart? && start.contentType == "tool_use"
    && (start.toolId.Some? ==> block.id == start.toolId.value)
    && (start.toolId.None? ==> block.id == "")
    && (start.toolName.Some? ==> block.name == start.toolName.value)
    && (start.toolName.None? ==> block.name == "")
    && (deltas == "" ==> block.input == Ok(Obj(map[])))
    && (deltas != "" ==> block.input == parse(deltas))
  }

  /** Without restarts, a stop finishes the block open at its index, if there is one. */
  lemma {:induction false} StopsOpen(events: seq<Event>, i: nat)
    requires NeverRestarts(events)
    ensures var open := Assembled(events).open;
            Stopped(Run(events), BlockStop(i)) == if i in open then Some(Finalized(open[i])) else None
  {
    AgreesWithoutRestarts(events);
    RemoveSelects(Run(events).active, i, i);
    assert Select(Run(events).active, i) == OpenAt(Assembled(events), i);
  }

  /** Without restarts, the stop of an open call returns that call: its identifier, its name and
      the input that its own deltas spell. */
  lemma {:induction false} StopReturnsCall(before: seq<Event>, start: Event, middle: seq<Event>,
                                           parse: string -> Result<Json>)
    requires start.BlockStart? && start.contentType == "tool_use"
    requires forall k :: 0 <= k < |middle| ==> Concerns(middle[k], start.index) ==> middle[k].Delta?
    requires NeverRestarts(before + [start] + middle)
    ensures var block := Returned(Run(before + [start] + middle), BlockStop(start.index), parse);
            block.Some? && IsCall(block.value, start, DeltasOf(middle, start.index), parse)
  {
    OpenBuffer(before, start, middle);
    StopsOpen(before + [start] + middle, start.index);
  }

  /** And nothing else returns one: a returned call started somewhere in the stream, and since
      then its block has had nothing but deltas. */
  lemma {:induction false} ReturnedWasStarted(events: seq<Event>, e: Event, parse: string -> Result<Json>)
    requires NeverRestarts(events) && Returned(Run(events), e, parse).Some?
    ensures e.BlockStop?
    ensures exists s: nat :: s < |events| && IsToolStart(events[s]) && events[s].index == e.index
              && (forall k :: s < k < |events| && Concerns(events[k], e.index) ==> events[k].Delta?)
              && IsCall(Returned(Run(events), e, parse).value, events[s], DeltasOf(events[s + 1..], e.index), parse)
  {
    StopsOpen(events, e.index);
    var s := OpenSpan(events, e.index);
  }

  /** `a` is the block that starts at `s` and is finished at `t`: in between there is nothing
      of that block but deltas, and their concatenation is its buffer. */
  predicate Spans(events: seq<Event>, s: nat, t: nat, a: Accumulator) {
    && s < t < |events| && IsToolStart(events[s]) && events[t] == BlockStop(events[s].index)
    && (forall k :: s < k < t && Concerns(events[k], events[s].index) ==> events[k].Delta?)
    && a == Opened(events[s]).(jsonBuffer := DeltasOf(events[s + 1..t], events[s].index), completed := true)
  }

  lemma {:induction false} OpenSpan(events: seq<Event>, i: nat) returns (s: nat)
    requires i in Assembled(events).open
    ensures s < |events| && IsToolStart(events[s]) && events[s].index == i
    ensures forall k :: s < k < |events| && Concerns(events[k], i) ==> events[k].Delta?
    ensures Assembled(events).open[i] == Opened(events[s]).(jsonBuffer := DeltasOf(events[s + 1..], i))
  {
    var n := |events| - 1;
    var front, last := events[..n], events[n];
    if IsToolStart(last) && last.index == i {
      s := n;
    } else {
      s := OpenSpan(front, i);
      assert front[s] == events[s];
      assert events[s + 1..][..n - (s + 1)] == front[s + 1..];
      forall k | s < k < |events| && Concerns(events[k], i) ensures events[k].Delta? {
        assert k < n ==> front[k] == events[k];
      }
    }
  }

  lemma {:induction false} DoneSpan(events: seq<Event>, k: nat) returns (s: nat, t: nat)
    requires k < |Assembled(events).done|
    ensures Spans(events, s, t, Assembled(events).done[k])
    ensures |Assembled(events[..t]).done| == k
  {
    var n := |events| - 1;
    var front := events[..n];
    if k < |Assembled(front).done| {
      s, t := DoneSpan(front, k);
      SpansOn(events, s, t, Assembled(front).done[k]);
      assert front[..t] == events[..t];
    } else {
      s := OpenSpan(front, events[n].index);
      t := n;
      SpanEnds(events, s, Assembled(front).open[events[n].index]);
    }
  }

  lemma SpansOn(events: seq<Event>, s: nat, t: nat, a: Accumulator)
    requires events != [] && Spans(events[..|events| - 1], s, t, a)
    ensures Spans(events, s, t, a)
  {
    var front := events[..|events| - 1];
    assert front[s + 1..t] == events[s + 1..t];
    assert forall k :: s < k < t ==> front[k] == events[k];
  }

  lemma SpanEnds(events: seq<Event>, s: nat, a: Accumulator)
    requires s < |events| - 1 && IsToolStart(events[s])
    requires events[|events| - 1] == BlockStop(events[s].index)
    requires var front := events[..|events| - 1];
      && (forall k :: s < k < |front| && Concerns(front[k], events[s].index) ==> front[k].Delta?)
      && a == Opened(events[s]).(jsonBuffer := DeltasOf(front[s + 1..], events[s].index))
    ensures Spans(events, s, |events| - 1, Finalized(a))
  {
    var t := |events| - 1;
    var front := events[..t];
    assert front[s + 1..] == events[s + 1..t];
    assert forall k :: s < k < t ==> front[k] == events[k];
  }

  lemma {:induction false} NeverRestartsBefore(events: seq<Event>, t: nat)
    requires NeverRestarts(events) && t <= |events|
    ensures NeverRestarts(events[..t])
  {
    if t == |events| {
      assert events[..t] == events;
    } else {
      NeverRestartsBefore(events[..|events| - 1], t);
      assert events[..|events| - 1][..t] == events[..t];
    }
  }

  /** Every finished block, in the order they finish: it has its start and its stop in the
      stream, and its buffer is the concatenation of its own deltas between the two. */
  lemma FinishedBlocks(events: seq<Event>, k: nat)
    requires NeverRestarts(events) && k < |Run(events).completed|
    ensures exists s: nat, t: nat ::
              Spans(events, s, t, Run(events).completed[k]) && |Run(events[..t]).completed| == k
  {
    AgreesWithoutRestarts(events);
    var s, t := DoneSpan(events, k);
    NeverRestartsBefore(events, t);
    AgreesWithoutRestarts(events[..t]);
  }

  /** A restarted block collects the deltas meant for its successor. */
  lemma RestartMixesBlocks(i: nat, id0: string, id1: string, delta: string)
    ensures var start0 := BlockStart(i, "tool_use", Some(id0), None);
            var start1 := BlockStart(i, "tool_use", Some(id1), None);
            var events := [start0, start1, Delta(i, delta), BlockStop(i)];
            && Run(events).completed == [Accumulator(i, id0, "", delta, true)]
            && Assembled(events).done == [Accumulator(i, id1, "", delta, true)]
  {
    var start0 := BlockStart(i, "tool_use", Some(id0), None);
    var start1 := BlockStart(i, "tool_use", Some(id1), None);
    var e1, e2, e3 := [start0], [start0, start1], [start0, start1, Delta(i, delta)];
    var e4 := [start0, start1, Delta(i, delta), BlockStop(i)];
    assert e1[..0] == [] && e2[..1] == e1 && e3[..2] == e2 && e4[..3] == e3;
    assert "" + delta == delta;
    var a0, a1 := Opened(start0), Opened(start1);
    RestartedParser(i, e4, a0, a1);
    assert Assembled(e1) == Blocks(map[i := a0], []);
    assert Assembled(e2) == Blocks(map[i := a1], []);
    assert Assembled(e3) == Blocks(map[i := Appended(a1, delta)], []);
    assert Assembled(e4) == Assemble(Assembled(e3), e4[3]);
    assert Finalized(Appended(a1, delta)) == Accumulator(i, id1, "", delta, true);
  }

  lemma RestartedParser(i: nat, events: seq<Event>, a0: Accumulator, a1: Accumulator)
    requires |events| == 4 && IsToolStart(events[0]) && IsToolStart(events[1])
    requires events[0].index == events[1].index == i && a0 == Opened(events[0]) && a1 == Opened(events[1])
    requires events[2].Delta? && events[2].index == i && events[3] == BlockStop(i)
    ensures Run(events).completed == [Finalized(Appended(a0, events[2].delta))]
  {
    RunOfFour(events);
    var s1 := Step(EMPTY, events[0]);
    assert s1.active == [a0] && s1.completed == [] && TypeAt(s1.blockTypes, i) == ToolUse;
    SecondStart(s1, events[1], a0);
    var s2 := Step(s1, events[1]);
    DeltaThenStop(s2, events[2], a0, a1);
  }

  lemma RunOfFour(events: seq<Event>)
    requires |events| == 4
    ensures Run(events) == Step(Step(Step(Step(EMPTY, events[0]), events[1]), events[2]), events[3])
  {
    var e1, e2, e3 := events[..1], events[..2], events[..3];
    assert e1[..0] == [] && e2[..1] == e1 && e3[..2] == e2;
    assert Run(e1) == Step(Run(e1[..0]), events[0]);
    assert Run(e2) == Step(Run(e1), events[1]);
    assert Run(e3) == Step(Run(e2), events[2]);
  }

  lemma SecondStart(s: State, e: Event, a0: Accumulator)
    requires s.active == [a0] && IsToolStart(e)
    ensures var t := Step(s, e);
            t.active == [a0, Opened(e)] && t.completed == s.completed && TypeAt(t.blockTypes, e.index) == ToolUse
  {
  }

  lemma DeltaThenStop(s: State, e: Event, a0: Accumulator, a1: Accumulator)
    requires e.Delta? && a0.index == e.index && TypeAt(s.blockTypes, e.index) == ToolUse
    requires s.active == [a0, a1] && s.completed == []
    ensures Step(Step(s, e), BlockStop(e.index)).completed == [Finalized(Appended(a0, e.delta))]
  {
    assert Position([a0, a1], e.index) == 0;
    var a0' := Appended(a0, e.delta);
    assert Step(s, e).active == [a0', a1];
    assert Position([a0', a1], e.index) == 0;
  }

  // ----- text -----

  /** What the last start at an index declared. */
  function Declared(events: seq<Event>, i: nat): BlockType {
    if events == [] then Unknown
    else
      var last := events[|events| - 1];
      if last.BlockStart? && last.index == i then (if IsToolStart(last) then ToolUse else Text)
      else Declared(events[..|events| - 1], i)
  }

  /** The deltas of every block not last declared a tool block, in order. */
  function TextOf(events: seq<Event>): string {
    if events == [] then ""
    else
      var front, last := events[..|events| - 1], events[|events| - 1];
      if last.Delta? && Declared(front, last.index) != ToolUse then TextOf(front) + last.delta
      else TextOf(front)
  }

  lemma {:induction false} TypesAreDeclared(events: seq<Event>, i: nat)
    ensures TypeAt(Run(events).blockTypes, i) == Declared(events, i)
  {
    if events != [] {
      TypesAreDeclared(events[..|events| - 1], i);
    }
  }

  lemma {:induction false} TextIsUndeclared(events: seq<Event>)
    ensures Run(events).text == TextOf(events)
  {
    if events != [] {
      var front, last := events[..|events| - 1], events[|events| - 1];
      TextIsUndeclared(front);
      if last.Delta? {
        TypesAreDeclared(front, last.index);
      }
    }
  }

  // ----- taking and resetting -----

  datatype Op = Feed(event: Event) | Take | Reset

  /** The parser state, and what has been taken since the last reset. */
  function Perform(ops: seq<Op>): (State, seq<Accumulator>) {
    if ops == [] then (EMPTY, [])
    else
      var (s, taken) := Perform(ops[..|ops| - 1]);
      match ops[|ops| - 1]
      case Feed(e) => (Step(s, e), taken)
      case Take => (s.(completed := []), taken + s.completed)
      case Reset => (EMPTY, [])
  }

  /** The events fed since the last reset. */
  function Fed(ops: seq<Op>): seq<Event> {
    if ops == [] then []
    else
      var front := Fed(ops[..|ops| - 1]);
      match ops[|ops| - 1]
      case Feed(e) => front + [e]
      case Take => front
      case Reset => []
  }

  lemma StepIgnoresTaken(s: State, e: Event, taken: seq<Accumulator>)
    ensures Step(s.(completed := taken + s.completed), e) ==
            Step(s, e).(completed := taken + Step(s, e).completed)
  {
    assert Stopped(s.(completed := taken + s.completed), e) == Stopped(s, e);
    if Stopped(s, e).Some? {
      var a := Stopped(s, e).value;
      assert taken + (s.completed + [a]) == (taken + s.completed) + [a];
    }
  }

  /** Taking finished blocks early loses none and changes nothing else: with what was taken
      put back, the state is that of the events since the last reset. */
  lemma {:induction false} TakingLosesNothing(ops: seq<Op>)
    ensures var (s, taken) := Perform(ops);
            && s.(completed := taken + s.completed) == Run(Fed(ops))
            && |s.active| + |s.completed| + |taken| == ToolStarts(Fed(ops))
  {
    if ops != [] {
      var front := ops[..|ops| - 1];
      TakingLosesNothing(front);
      var (s, taken) := Perform(front);
      match ops[|ops| - 1]
      case Feed(e) =>
        StepIgnoresTaken(s, e, taken);
        assert (Fed(front) + [e])[..|Fed(front)|] == Fed(front);
      case Take =>
        assert (taken + s.completed) + [] == taken + s.completed;
      case Reset =>
    }
    CountsToolStarts(Fed(ops));
    var (s, taken) := Perform(ops);
    assert |s.(completed := taken + s.completed).completed| == |taken| + |s.completed|;
  }
}
