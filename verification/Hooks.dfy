/** Hook configuration: flattening a map of matcher groups, and merging two such maps
    (crates/config/src/hooks.rs). */
module Hooks {
  import opened Values

  const DEFAULT_TIMEOUT_SECS := 600

  /** An entry of a matcher group, defaults filled in. */
  datatype Entry = Entry(hookType: string, command: string, timeout: Option<nat>)

  datatype Group = Group(matcher: Option<string>, hooks: seq<Entry>)

  datatype Hook = Hook(event: string, matcher: Option<string>, command: string, timeoutSecs: nat)

  // ----- parsing -----

  /** The hook an entry stands for: only commands, and only those that say something. */
  function HookOf(event: string, matcher: Option<string>, e: Entry): seq<Hook> {
    if e.hookType != "command" || e.command == "" then []
    else
      [Hook(event, matcher, e.command, match e.timeout case Some(t) => t case None => DEFAULT_TIMEOUT_SECS)]
  }

  function HooksOfEntries(event: string, matcher: Option<string>, entries: seq<Entry>): seq<Hook> {
    if entries == [] then []
    else HooksOfEntries(event, matcher, entries[..|entries| - 1]) + HookOf(event, matcher, entries[|entries| - 1])
  }

  function HooksOfGroups(event: string, groups: seq<Group>): seq<Hook> {
    if groups == [] then []
    else
      var last := groups[|groups| - 1];
      HooksOfGroups(event, groups[..|groups| - 1]) + HooksOfEntries(event, last.matcher, last.hooks)
  }

  /** The reader of one matcher group; any reader will do. */
  type Reader = Json -> Option<Group>

  function Groups(elems: seq<Json>, read: Reader): Option<seq<Group>> {
    if elems == [] then Some([])
    else
      match (Groups(elems[..|elems| - 1], read), read(elems[|elems| - 1]))
      case (Some(front), Some(last)) => Some(front + [last])
      case _ => None
  }

  /** The groups a hook map has for an event: none when it does not mention it. */
  function GroupsFor(value: Json, event: string, read: Reader): Option<seq<Group>> {
    if value.Obj? && event in value.fields then
      (match value.fields[event]
       case Arr(elems) => Groups(elems, read)
       case _ => None)
    else Some([])
  }

  /** A hook map that can be read: an object with known events only, and readable groups for
      each. */
  ghost predicate Readable(value: Json, events: seq<string>, read: Reader) {
    && value.Obj?
    && (forall e :: e in value.fields ==> e in events)
    && (forall e :: e in value.fields ==> GroupsFor(value, e, read).Some?)
  }

  /** The hooks for an event, in order. */
  function HooksFor(value: Json, event: string, read: Reader): seq<Hook> {
    match GroupsFor(value, event, read)
    case Some(groups) => HooksOfGroups(event, groups)
    case None => []
  }

  /** The hooks of all events, in the order of the events. */
  function AllHooks(value: Json, events: seq<string>, read: Reader): seq<Hook> {
    if events == [] then []
    else AllHooks(value, events[..|events| - 1], read) + HooksFor(value, events[|events| - 1], read)
  }

  method CheckReadable(value: Json, events: seq<string>, read: Reader) returns (ok: bool)
    ensures ok <==> Readable(value, events, read)
  {
    if !value.Obj? {
      return false;
    }
    var todo := value.fields.Keys;
    while todo != {}
      invariant todo <= value.fields.Keys
      invariant forall e :: e in value.fields && e !in todo ==>
        e in events && GroupsFor(value, e, read).Some?
      decreases |todo|
    {
      var e :| e in todo;
      if e !in events || GroupsFor(value, e, read).None? {
        return false;
      }
      todo := todo - {e};
    }
    return true;
  }

  /** The hooks of one group: entries in order. */
  method FlattenGroup(event: string, group: Group) returns (hooks: seq<Hook>)
    ensures hooks == HooksOfEntries(event, group.matcher, group.hooks)
  {
    hooks := [];
    for j := 0 to |group.hooks|
      invariant hooks == HooksOfEntries(event, group.matcher, group.hooks[..j])
    {
      assert group.hooks[..j + 1][..j] == group.hooks[..j];
      var entry := group.hooks[j];
      if entry.hookType == "command" && entry.command != "" {
        var timeout := match entry.timeout case Some(t) => t case None => DEFAULT_TIMEOUT_SECS;
        hooks := hooks + [Hook(event, group.matcher, entry.command, timeout)];
      }
    }
    assert group.hooks[..|group.hooks|] == group.hooks;
  }

  /** All hooks of one event: groups in order, entries in order. */
  method FlattenGroups(event: string, groups: seq<Group>) returns (hooks: seq<Hook>)
    ensures hooks == HooksOfGroups(event, groups)
  {
    hooks := [];
    for i := 0 to |groups|
      invariant hooks == HooksOfGroups(event, groups[..i])
    {
      assert groups[..i + 1][..i] == groups[..i];
      var own := FlattenGroup(event, groups[i]);
      hooks := hooks + own;
    }
    assert groups[..|groups|] == groups;
  }

  method ParseHooks(value: Json, events: seq<string>, read: Reader) returns (r: Result<seq<Hook>>)
    ensures r.Ok? <==> Readable(value, events, read)
    ensures r.Ok? ==> r.value == AllHooks(value, events, read)
  {
    var ok := CheckReadable(value, events, read);
    if !ok {
      return Err("hooks parse error");
    }
    var hooks: seq<Hook> := [];
    for i := 0 to |events|
      invariant hooks == AllHooks(value, events[..i], read)
    {
      assert events[..i + 1][..i] == events[..i];
      assert GroupsFor(value, events[i], read).Some?;
      var own := FlattenGroups(events[i], GroupsFor(value, events[i], read).value);
      hooks := hooks + own;
    }
    assert events[..|events|] == events;
    return Ok(hooks);
  }

  // ----- what the hooks of an event are -----

  /** The hook comes from a usable entry of one of the groups: a command that says something,
      with the matcher of its group and its own timeout, or ten minutes. */
  ghost predicate ComesFrom(h: Hook, event: string, groups: seq<Group>) {
    exists g, e ::
      && g in groups && e in g.hooks
      && e.hookType == "command" && e.command != ""
      && h.event == event && h.matcher == g.matcher && h.command == e.command
      && (e.timeout.Some? ==> h.timeoutSecs == e.timeout.value)
      && (e.timeout.None? ==> h.timeoutSecs == 600)
  }

  lemma {:induction false} EntryHooks(event: string, matcher: Option<string>, entries: seq<Entry>, h: Hook)
    ensures h in HooksOfEntries(event, matcher, entries) <==>
            ComesFrom(h, event, [Group(matcher, entries)])
  {
    if entries != [] {
      var front, last := entries[..|entries| - 1], entries[|entries| - 1];
      EntryHooks(event, matcher, front, h);
      assert entries == front + [last];
      HooksOfFront(event, matcher, front, last, h);
    }
  }

  lemma HooksOfFront(event: string, matcher: Option<string>, front: seq<Entry>, last: Entry, h: Hook)
    ensures ComesFrom(h, event, [Group(matcher, front + [last])]) <==>
            ComesFrom(h, event, [Group(matcher, front)]) || h in HookOf(event, matcher, last)
  {
    var one, less := Group(matcher, front + [last]), Group(matcher, front);
    assert forall g :: g in [one] <==> g == one;
    assert forall g :: g in [less] <==> g == less;
    assert forall e :: e in one.hooks <==> e in front || e == last;
    EntryHook(event, one, last, h);
    if ComesFrom(h, event, [less]) {
      FrontHook(event, matcher, front, one, h);
    }
  }

  lemma EntryHook(event: string, g: Group, e: Entry, h: Hook)
    requires e in g.hooks
    ensures h in HookOf(event, g.matcher, e) ==> ComesFrom(h, event, [g])
  {
    assert g in [g];
  }

  lemma FrontHook(event: string, matcher: Option<string>, front: seq<Entry>, one: Group, h: Hook)
    requires one.matcher == matcher && (forall e :: e in front ==> e in one.hooks)
    requires ComesFrom(h, event, [Group(matcher, front)])
    ensures ComesFrom(h, event, [one])
  {
    assert one in [one];
  }

  /** The hooks of an event are exactly those of the usable entries of its groups. */
  lemma {:induction false} HooksExactly(event: string, groups: seq<Group>, h: Hook)
    ensures h in HooksOfGroups(event, groups) <==> ComesFrom(h, event, groups)
  {
    if groups != [] {
      var front, last := groups[..|groups| - 1], groups[|groups| - 1];
      HooksExactly(event, front, h);
      EntryHooks(event, last.matcher, last.hooks, h);
      assert last == Group(last.matcher, last.hooks);
      assert forall g :: g in groups <==> g in front || g in [last];
    }
  }

  lemma RegroupHooks(a: seq<Hook>, b: seq<Hook>, c: seq<Hook>)
    ensures (a + b) + c == a + (b + c)
  {
  }

  /** One usable entry gives one hook, any other none. */
  lemma EntryExactly(event: string, matcher: Option<string>, e: Entry)
    ensures var own := HooksOfEntries(event, matcher, [e]);
            if e.hookType == "command" && e.command != ""
            then |own| == 1 && ComesFrom(own[0], event, [Group(matcher, [e])])
            else own == []
  {
    assert [e][..0] == [];
    assert HooksOfEntries(event, matcher, [e]) == [] + HookOf(event, matcher, e);
    if e.hookType == "command" && e.command != "" {
      assert e in [e];
      EntryHook(event, Group(matcher, [e]), e, HookOf(event, matcher, e)[0]);
    }
  }

  /** The hooks come in the order of the entries. */
  lemma {:induction false} EntriesConcat(event: string, matcher: Option<string>, xs: seq<Entry>, ys: seq<Entry>)
    ensures HooksOfEntries(event, matcher, xs + ys) ==
            HooksOfEntries(event, matcher, xs) + HooksOfEntries(event, matcher, ys)
    decreases |ys|
  {
    if ys == [] {
      assert xs + ys == xs;
    } else {
      var front, last := ys[..|ys| - 1], ys[|ys| - 1];
      assert (xs + ys)[..|xs + ys| - 1] == xs + front && (xs + ys)[|xs + ys| - 1] == last;
      EntriesConcat(event, matcher, xs, front);
      RegroupHooks(HooksOfEntries(event, matcher, xs), HooksOfEntries(event, matcher, front),
                   HookOf(event, matcher, last));
    }
  }

  /** The groups of a list are what the reader makes of its elements, one by one; a single
      unreadable element spoils the list. */
  lemma {:induction false} GroupsExactly(elems: seq<Json>, read: Reader)
    ensures Groups(elems, read).Some? <==> forall i :: 0 <= i < |elems| ==> read(elems[i]).Some?
    ensures Groups(elems, read).Some? ==>
      |Groups(elems, read).value| == |elems| &&
      forall i :: 0 <= i < |elems| ==> Some(Groups(elems, read).value[i]) == read(elems[i])
  {
    if elems != [] {
      GroupsExactly(elems[..|elems| - 1], read);
    }
  }

  /** The events are taken in their order. */
  lemma {:induction false} EventsConcat(value: Json, xs: seq<string>, ys: seq<string>, read: Reader)
    ensures AllHooks(value, xs + ys, read) == AllHooks(value, xs, read) + AllHooks(value, ys, read)
    decreases |ys|
  {
    if ys == [] {
      assert xs + ys == xs;
    } else {
      var front, last := ys[..|ys| - 1], ys[|ys| - 1];
      assert (xs + ys)[..|xs + ys| - 1] == xs + front && (xs + ys)[|xs + ys| - 1] == last;
      EventsConcat(value, xs, front, read);
      RegroupHooks(AllHooks(value, xs, read), AllHooks(value, front, read), HooksFor(value, last, read));
    }
  }

  lemma EventExactly(value: Json, event: string, read: Reader)
    ensures AllHooks(value, [event], read) == HooksFor(value, event, read)
  {
    assert [event][..0] == [];
    assert [] + HooksFor(value, event, read) == HooksFor(value, event, read);
  }

  // ----- merging -----

  function BaseFields(base: Json): map<string, Json> {
    if base.Obj? then base.fields else map[]
  }

  /** What an event holds after a merge: arrays are appended, an array is kept over anything
      else, and anything that is not an array is replaced. */
  function MergedGroups(b: Option<Json>, o: Option<Json>): Option<Json> {
    match (b, o)
    case (Some(Arr(xs)), Some(Arr(ys))) => Some(Arr(xs + ys))
    case (Some(Arr(xs)), _) => b
    case (_, Some(_)) => o
    case _ => b
  }

  function Field(m: map<string, Json>, k: string): Option<Json> {
    if k in m then Some(m[k]) else None
  }

  ghost predicate IsMerge(base: Json, overlay: Json, merged: Json) {
    if overlay.Obj? then
      && merged.Obj?
      && forall e :: Field(merged.fields, e) == MergedGroups(Field(BaseFields(base), e), Field(overlay.fields, e))
    else merged == base
  }

  /** One event of the overlay, against what the base holds for it. */
  method MergeEvent(slot: Option<Json>, groups: Json) returns (result: Json)
    ensures Some(result) == MergedGroups(slot, Some(groups))
  {
    if slot.Some? && slot.value.Arr? {
      result := if groups.Arr? then Arr(slot.value.elems + groups.elems) else slot.value;
    } else {
      result := groups;
    }
  }

  function MergedAfter(b: map<string, Json>, o: map<string, Json>, todo: set<string>, e: string): Option<Json> {
    if e in o && e !in todo then MergedGroups(Field(b, e), Field(o, e)) else Field(b, e)
  }

  lemma MergedStep(b0: map<string, Json>, o: map<string, Json>, todo: set<string>, event: string,
                   b: map<string, Json>, slot: Json)
    requires event in todo && event in o
    requires forall e :: Field(b, e) == MergedAfter(b0, o, todo, e)
    requires Some(slot) == MergedGroups(Field(b0, event), Some(o[event]))
    ensures forall e :: Field(b[event := slot], e) == MergedAfter(b0, o, todo - {event}, e)
  {
    forall e ensures Field(b[event := slot], e) == MergedAfter(b0, o, todo - {event}, e) {
      assert Field(b, e) == MergedAfter(b0, o, todo, e);
    }
  }

  method MergeHooksValues(base: Json, overlay: Json) returns (merged: Json)
    ensures IsMerge(base, overlay, merged)
  {
    if !overlay.Obj? {
      return base;
    }
    var b0, o := BaseFields(base), overlay.fields;
    var b, todo := b0, o.Keys;
    while todo != {}
      invariant todo <= o.Keys
      invariant forall e :: Field(b, e) == MergedAfter(b0, o, todo, e)
      decreases |todo|
    {
      var event :| event in todo;
      assert Field(b, event) == Field(b0, event);
      var slot := MergeEvent(Field(b, event), o[event]);
      MergedStep(b0, o, todo, event, b, slot);
      b := b[event := slot];
      todo := todo - {event};
    }
    merged := Obj(b);
    forall e ensures Field(b, e) == MergedGroups(Field(b0, e), Field(o, e)) {
      assert Field(b, e) == MergedAfter(b0, o, todo, e);
    }
  }

  /** What the merge holds for an event, in terms of the two maps: the groups of both, base
      first, when both are arrays; the base's when only it is one; otherwise the overlay's when
      there are any. A base that is no object counts as empty, and an overlay that is none
      changes nothing. */
  lemma MergedExactly(base: Json, overlay: Json, merged: Json, e: string)
    requires IsMerge(base, overlay, merged)
    ensures !overlay.Obj? ==> merged == base
    ensures overlay.Obj? ==> merged.Obj?
    ensures overlay.Obj? ==>
      var inBase, inOverlay := base.Obj? && e in base.fields, e in overlay.fields;
      && (e in merged.fields <==> inBase || inOverlay)
      && (inBase && !inOverlay ==> merged.fields[e] == base.fields[e])
      && (inOverlay && !inBase ==> merged.fields[e] == overlay.fields[e])
      && (inBase && inOverlay && !base.fields[e].Arr? ==> merged.fields[e] == overlay.fields[e])
      && (inBase && inOverlay && base.fields[e].Arr? && !overlay.fields[e].Arr? ==>
            merged.fields[e] == base.fields[e])
      && (inBase && inOverlay && base.fields[e].Arr? && overlay.fields[e].Arr? ==>
            merged.fields[e] == Arr(base.fields[e].elems + overlay.fields[e].elems))
  {
    if overlay.Obj? {
      assert Field(merged.fields, e) == MergedGroups(Field(BaseFields(base), e), Field(overlay.fields, e));
    }
  }

  // ----- merging and parsing -----

  lemma {:induction false} GroupsConcat(xs: seq<Json>, ys: seq<Json>, read: Reader)
    ensures Groups(xs + ys, read) ==
            match (Groups(xs, read), Groups(ys, read))
            case (Some(a), Some(b)) => Some(a + b)
            case _ => None
    decreases |ys|
  {
    if ys == [] {
      assert xs + ys == xs;
      assert Groups(xs, read).Some? ==> Groups(xs, read).value + [] == Groups(xs, read).value;
    } else {
      var front, last := ys[..|ys| - 1], ys[|ys| - 1];
      assert (xs + ys)[..|xs + ys| - 1] == xs + front && (xs + ys)[|xs + ys| - 1] == last;
      GroupsConcat(xs, front, read);
      match (Groups(xs, read), Groups(front, read), read(last))
      case (Some(a), Some(b), Some(c)) => assert (a + b) + [c] == a + (b + [c]);
      case _ =>
    }
  }

  lemma {:induction false} HooksConcat(event: string, xs: seq<Group>, ys: seq<Group>)
    ensures HooksOfGroups(event, xs + ys) == HooksOfGroups(event, xs) + HooksOfGroups(event, ys)
    decreases |ys|
  {
    if ys == [] {
      assert xs + ys == xs;
    } else {
      var front, last := ys[..|ys| - 1], ys[|ys| - 1];
      assert (xs + ys)[..|xs + ys| - 1] == xs + front;
      HooksConcat(event, xs, front);
      var a, b, c := HooksOfGroups(event, xs), HooksOfGroups(event, front),
                     HooksOfEntries(event, last.matcher, last.hooks);
      assert (a + b) + c == a + (b + c);
    }
  }

  /** For two hook maps that can be read, the merge can be read too, and gives for each event
      the base's hooks followed by the overlay's: nothing lost, added or reordered. */
  lemma MergeThenParse(base: Json, overlay: Json, merged: Json, events: seq<string>, read: Reader)
    requires Readable(base, events, read) && Readable(overlay, events, read)
    requires IsMerge(base, overlay, merged)
    ensures Readable(merged, events, read)
    ensures forall e :: HooksFor(merged, e, read) == HooksFor(base, e, read) + HooksFor(overlay, e, read)
  {
    forall e
      ensures HooksFor(merged, e, read) == HooksFor(base, e, read) + HooksFor(overlay, e, read)
      ensures e in merged.fields ==> e in events && GroupsFor(merged, e, read).Some?
    {
      MergeAt(base, overlay, merged, e, events, read);
    }
  }

  lemma MergeAt(base: Json, overlay: Json, merged: Json, e: string, events: seq<string>, read: Reader)
    requires Readable(base, events, read) && Readable(overlay, events, read)
    requires IsMerge(base, overlay, merged)
    ensures HooksFor(merged, e, read) == HooksFor(base, e, read) + HooksFor(overlay, e, read)
    ensures e in merged.fields ==> e in events && GroupsFor(merged, e, read).Some?
  {
    assert Field(merged.fields, e) == MergedGroups(Field(base.fields, e), Field(overlay.fields, e));
    if e in base.fields {
      assert GroupsFor(base, e, read).Some?;
    }
    if e in overlay.fields {
      assert GroupsFor(overlay, e, read).Some?;
    }
    if e in base.fields && e in overlay.fields {
      var xs, ys := base.fields[e].elems, overlay.fields[e].elems;
      GroupsConcat(xs, ys, read);
      HooksConcat(e, Groups(xs, read).value, Groups(ys, read).value);
    } else {
      assert HooksOfGroups(e, []) == [];
    }
  }

  /** Two hook maps can both be read exactly when both are objects, their merge can be read and
      every event they share is an array in both or in neither. So an unreadable map vanishes
      into a readable merge only if it is no object at all, or an event is an array in just one
      of the two. */
  lemma ReadableExactly(base: Json, overlay: Json, merged: Json, events: seq<string>, read: Reader)
    requires IsMerge(base, overlay, merged)
    ensures Readable(base, events, read) && Readable(overlay, events, read) <==>
            && base.Obj? && overlay.Obj? && Readable(merged, events, read)
            && forall e :: e in base.fields && e in overlay.fields ==>
                 (base.fields[e].Arr? <==> overlay.fields[e].Arr?)
  {
    if Readable(base, events, read) && Readable(overlay, events, read) {
      MergeThenParse(base, overlay, merged, events, read);
      forall e | e in base.fields && e in overlay.fields
        ensures base.fields[e].Arr? && overlay.fields[e].Arr?
      {
        assert GroupsFor(base, e, read).Some? && GroupsFor(overlay, e, read).Some?;
      }
    } else if && base.Obj? && overlay.Obj? && Readable(merged, events, read)
              && forall e :: e in base.fields && e in overlay.fields ==>
                   (base.fields[e].Arr? <==> overlay.fields[e].Arr?) {
      forall e
        ensures e in base.fields ==> e in events && GroupsFor(base, e, read).Some?
        ensures e in overlay.fields ==> e in events && GroupsFor(overlay, e, read).Some?
      {
        ReadableParts(base, overlay, merged, e, events, read);
      }
    }
  }

  lemma ReadableParts(base: Json, overlay: Json, merged: Json, e: string, events: seq<string>, read: Reader)
    requires base.Obj? && overlay.Obj? && IsMerge(base, overlay, merged) && Readable(merged, events, read)
    requires e in base.fields && e in overlay.fields ==> (base.fields[e].Arr? <==> overlay.fields[e].Arr?)
    ensures e in base.fields ==> e in events && GroupsFor(base, e, read).Some?
    ensures e in overlay.fields ==> e in events && GroupsFor(overlay, e, read).Some?
  {
    assert Field(merged.fields, e) == MergedGroups(Field(base.fields, e), Field(overlay.fields, e));
    if e in base.fields || e in overlay.fields {
      assert e in merged.fields && GroupsFor(merged, e, read).Some?;
    }
    if e in base.fields && e in overlay.fields && base.fields[e].Arr? {
      GroupsConcat(base.fields[e].elems, overlay.fields[e].elems, read);
    }
  }

  /** A merge keeps base groups even over an overlay that is not an array, which then goes
      unnoticed although it could not be read by itself. */
  lemma UnreadableOverlayIsDropped(base: Json, overlay: Json, merged: Json, event: string,
                                   events: seq<string>, read: Reader)
    requires base.Obj? && overlay.Obj? && IsMerge(base, overlay, merged)
    requires event in base.fields && event in overlay.fields
    requires base.fields[event].Arr? && !overlay.fields[event].Arr?
    ensures !Readable(overlay, events, read)
    ensures HooksFor(merged, event, read) == HooksFor(base, event, read)
  {
    assert Field(merged.fields, event) == MergedGroups(Field(base.fields, event), Field(overlay.fields, event));
    assert GroupsFor(overlay, event, read).None?;
  }
}
