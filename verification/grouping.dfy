/**
  Grouping of pylint diagnostics by message id (BugBot/main.py, the loop
  that fills `grouped_errors`): ignored ids are dropped, every other id
  gets one group, in the order ids are first seen, holding the message of
  its first diagnostic and the lines of all of them.
 */
module Grouping {
  import opened Sequences
  import opened Diagnostics

  /** Some diagnostic of `raw` carries `id` (a missing id counts as ""). */
  predicate Occurs(raw: seq<RawDiagnostic>, id: string) {
    exists k :: 0 <= k < |raw| && IdOf(raw[k]) == id
  }

  lemma OccursSnoc(raw: seq<RawDiagnostic>)
    requires raw != []
    ensures forall id :: Occurs(raw, id) <==> Occurs(raw[..|raw| - 1], id) || IdOf(raw[|raw| - 1]) == id
  {
    var init := raw[..|raw| - 1];
    forall id | Occurs(init, id) ensures Occurs(raw, id) {
      var k :| 0 <= k < |init| && IdOf(init[k]) == id;
      assert IdOf(raw[k]) == id;
    }
  }

  // ---------------------------------------------------------------------------
  // The declarative description of `grouped_errors`

  /** The keys of `grouped_errors`, in insertion order. */
  function KeptIds(raw: seq<RawDiagnostic>, ignored: set<string>): (ids: seq<string>)
    ensures Distinct(ids)
    ensures forall id :: id in ids <==> id !in ignored && Occurs(raw, id)
  {
    if raw == [] then []
    else
      var prev := KeptIds(raw[..|raw| - 1], ignored);
      var id := IdOf(raw[|raw| - 1]);
      OccursSnoc(raw);
      if id in ignored || id in prev then prev else prev + [id]
  }

  /** The position of the first diagnostic with `id`. */
  function FirstIndex(raw: seq<RawDiagnostic>, id: string): (j: nat)
    requires Occurs(raw, id)
    ensures j < |raw| && IdOf(raw[j]) == id
    ensures forall k :: 0 <= k < j ==> IdOf(raw[k]) != id
  {
    OccursSnoc(raw);
    var last := |raw| - 1;
    if Occurs(raw[..last], id) then
      var j := FirstIndex(raw[..last], id);
      assert forall k :: 0 <= k < j ==> raw[k] == raw[..last][k];
      j
    else
      assert forall k :: 0 <= k < last ==> raw[k] == raw[..last][k];
      last
  }

  /** The message kept for `id`: that of its first diagnostic. */
  function FirstMessage(raw: seq<RawDiagnostic>, id: string): string
    requires Occurs(raw, id)
  {
    MessageOf(raw[FirstIndex(raw, id)])
  }

  /** The lines of every diagnostic with `id`, in input order, repetitions kept. */
  function LinesOf(raw: seq<RawDiagnostic>, id: string): (lines: seq<int>)
    ensures !Occurs(raw, id) ==> lines == []
  {
    if raw == [] then []
    else
      var last := |raw| - 1;
      var prev := LinesOf(raw[..last], id);
      OccursSnoc(raw);
      assert forall k :: 0 <= k < last ==> raw[k] == raw[..last][k];
      if IdOf(raw[last]) == id then prev + [raw[last].line] else prev
  }

  /** The lines kept for `id` are exactly those of the diagnostics with `id`. */
  lemma {:induction false} LinesOfMembers(raw: seq<RawDiagnostic>, id: string)
    ensures forall k :: 0 <= k < |raw| && IdOf(raw[k]) == id ==> raw[k].line in LinesOf(raw, id)
    ensures forall x :: x in LinesOf(raw, id) ==> exists k :: 0 <= k < |raw| && IdOf(raw[k]) == id && raw[k].line == x
  {
    if raw != [] {
      var last := |raw| - 1;
      LinesOfMembers(raw[..last], id);
      assert forall k :: 0 <= k < last ==> raw[k] == raw[..last][k];
    }
  }

  function GroupOf(raw: seq<RawDiagnostic>, id: string): Group
    requires Occurs(raw, id)
  {
    Group(id, FirstMessage(raw, id), LinesOf(raw, id))
  }

  /** `grouped_errors.values()`, in order. */
  function Grouped(raw: seq<RawDiagnostic>, ignored: set<string>): seq<Group> {
    var ids := KeptIds(raw, ignored);
    seq(|ids|, i requires 0 <= i < |ids| => GroupOf(raw, ids[i]))
  }

  // ---------------------------------------------------------------------------
  // The loop

  /** `order` and `table` are `grouped_errors` (keys in insertion order, and values) after the diagnostics `seen`. */
  ghost predicate Describes(seen: seq<RawDiagnostic>, ignored: set<string>, order: seq<string>, table: map<string, Group>) {
    order == KeptIds(seen, ignored) && SameKeys(order, table) && Tabulates(seen, table)
  }

  ghost predicate SameKeys(order: seq<string>, table: map<string, Group>) {
    forall id :: id in table <==> id in order
  }

  /** Every entry of `table` is the group of its id in `seen`. */
  ghost predicate Tabulates(seen: seq<RawDiagnostic>, table: map<string, Group>) {
    forall id :: id in table ==> Occurs(seen, id) && table[id] == GroupOf(seen, id)
  }

  /** Builds `grouped_errors` one diagnostic at a time, as a dict that keeps insertion order. */
  method GroupDiagnostics(raw: seq<RawDiagnostic>, ignored: set<string>) returns (groups: seq<Group>)
    ensures groups == Grouped(raw, ignored)
  {
    var order: seq<string> := [];
    var table: map<string, Group> := map[];
    for i := 0 to |raw|
      invariant Describes(raw[..i], ignored, order, table)
    {
      var d := raw[i];
      var id := IdOf(d);
      assert raw[..i + 1] == raw[..i] + [d];
      if id in ignored {
        SkipKeeps(raw[..i], d, ignored, order, table);
      } else if id !in table {
        AddKeeps(raw[..i], d, ignored, order, table);
        table := table[id := Group(id, MessageOf(d), [d.line])];
        order := order + [id];
      } else {
        AppendKeeps(raw[..i], d, ignored, order, table);
        var g := table[id];
        table := table[id := g.(lines := g.lines + [d.line])];
      }
    }
    assert raw[..|raw|] == raw;
    groups := seq(|order|, k requires 0 <= k < |order| => table[order[k]]);
  }

  /** An ignored id changes nothing. */
  lemma SkipKeeps(seen: seq<RawDiagnostic>, d: RawDiagnostic, ignored: set<string>, order: seq<string>, table: map<string, Group>)
    requires IdOf(d) in ignored
    requires Describes(seen, ignored, order, table)
    ensures Describes(seen + [d], ignored, order, table)
  {
    KeptIdsStep(seen, d, ignored);
    TabulatesStep(seen, d, table);
  }

  /** An id seen for the first time gets a new group, at the end. */
  lemma AddKeeps(seen: seq<RawDiagnostic>, d: RawDiagnostic, ignored: set<string>, order: seq<string>, table: map<string, Group>)
    requires IdOf(d) !in ignored && IdOf(d) !in table
    requires Describes(seen, ignored, order, table)
    ensures Describes(seen + [d], ignored, order + [IdOf(d)], table[IdOf(d) := Group(IdOf(d), MessageOf(d), [d.line])])
  {
    KeptIdsStep(seen, d, ignored);
    TabulatesStep(seen, d, table);
    NewEntry(seen, d);
    var id := IdOf(d);
    Extended(seen + [d], order, table, id, Group(id, MessageOf(d), [d.line]));
  }

  /** Adding the right group for a new key to both views keeps them in step. */
  lemma Extended(seen: seq<RawDiagnostic>, order: seq<string>, table: map<string, Group>, id: string, g: Group)
    requires SameKeys(order, table) && Tabulates(seen, table)
    requires Occurs(seen, id) && g == GroupOf(seen, id)
    ensures SameKeys(order + [id], table[id := g]) && Tabulates(seen, table[id := g])
  {
  }

  /** An id seen before keeps its message and gets one more line. */
  lemma AppendKeeps(seen: seq<RawDiagnostic>, d: RawDiagnostic, ignored: set<string>, order: seq<string>, table: map<string, Group>)
    requires IdOf(d) !in ignored && IdOf(d) in table
    requires Describes(seen, ignored, order, table)
    ensures var g := table[IdOf(d)];
      Describes(seen + [d], ignored, order, table[IdOf(d) := g.(lines := g.lines + [d.line])])
  {
    KeptIdsStep(seen, d, ignored);
    TabulatesStep(seen, d, table);
  }

  /** The entries other than that of `d`'s id stay right, and that one gets `d`'s line. */
  lemma TabulatesStep(seen: seq<RawDiagnostic>, d: RawDiagnostic, table: map<string, Group>)
    requires Tabulates(seen, table)
    ensures IdOf(d) in table ==>
      var g := table[IdOf(d)]; Tabulates(seen + [d], table[IdOf(d) := g.(lines := g.lines + [d.line])])
    ensures IdOf(d) !in table ==> Tabulates(seen + [d], table)
  {
    var id := IdOf(d);
    forall k | k in table ensures Occurs(seen + [d], k) && GroupOf(seen + [d], k) == if k == id then table[k].(lines := table[k].lines + [d.line]) else table[k] {
      EntryStep(seen, d, k);
    }
  }

  /** One more diagnostic extends the key order only when its id is new and not ignored. */
  lemma KeptIdsStep(seen: seq<RawDiagnostic>, d: RawDiagnostic, ignored: set<string>)
    ensures var id := IdOf(d);
      KeptIds(seen + [d], ignored)
      == (if id in ignored || id in KeptIds(seen, ignored) then KeptIds(seen, ignored) else KeptIds(seen, ignored) + [id])
  {
    assert (seen + [d])[..|seen|] == seen;
  }

  /** The group of an id already seen: same message, and one more line if `d` has that id. */
  lemma EntryStep(seen: seq<RawDiagnostic>, d: RawDiagnostic, id: string)
    requires Occurs(seen, id)
    ensures Occurs(seen + [d], id)
    ensures var g := GroupOf(seen, id);
      GroupOf(seen + [d], id) == if id == IdOf(d) then g.(lines := g.lines + [d.line]) else g
  {
    var s := seen + [d];
    assert s[..|s| - 1] == seen;
    OccursSnoc(s);
    assert FirstIndex(s, id) == FirstIndex(seen, id);
    assert s[FirstIndex(seen, id)] == seen[FirstIndex(seen, id)];
  }

  /** The group of an id seen for the first time: its message and its line. */
  lemma NewEntry(seen: seq<RawDiagnostic>, d: RawDiagnostic)
    requires !Occurs(seen, IdOf(d))
    ensures Occurs(seen + [d], IdOf(d))
    ensures GroupOf(seen + [d], IdOf(d)) == Group(IdOf(d), MessageOf(d), [d.line])
  {
    var s := seen + [d];
    assert s[..|s| - 1] == seen;
    OccursSnoc(s);
  }

  // ---------------------------------------------------------------------------
  // What the grouping promises

  /** No group is for an ignored id, and every id of the input that is not ignored has its group. */
  lemma GroupedIds(raw: seq<RawDiagnostic>, ignored: set<string>, id: string)
    ensures (exists g :: g in Grouped(raw, ignored) && g.id == id) <==> id !in ignored && Occurs(raw, id)
  {
    var ids := KeptIds(raw, ignored);
    var groups := Grouped(raw, ignored);
    if id !in ignored && Occurs(raw, id) {
      var i :| 0 <= i < |ids| && ids[i] == id;
      assert groups[i].id == id;
    }
  }

  /** Groups come in the order their ids first appear, one per id. */
  lemma {:induction false} GroupedInFirstSeenOrder(raw: seq<RawDiagnostic>, ignored: set<string>, i: nat, j: nat)
    requires i < j < |KeptIds(raw, ignored)|
    ensures var ids := KeptIds(raw, ignored);
      ids[i] != ids[j] && FirstIndex(raw, ids[i]) < FirstIndex(raw, ids[j])
  {
    var last := |raw| - 1;
    var prev := KeptIds(raw[..last], ignored);
    var ids := KeptIds(raw, ignored);
    OccursSnoc(raw);
    assert prev <= ids;
    if j < |prev| {
      GroupedInFirstSeenOrder(raw[..last], ignored, i, j);
      FirstIndexOfPrefix(raw, last, ids[i]);
      FirstIndexOfPrefix(raw, last, ids[j]);
    } else {
      // ids[j] is the id of the last diagnostic, seen nowhere before it.
      assert ids[j] == IdOf(raw[last]) && ids[j] !in prev;
      assert ids[i] in prev;
      FirstIndexOfPrefix(raw, last, ids[i]);
    }
  }

  /** Looking at more diagnostics does not move the first one with a given id. */
  lemma FirstIndexOfPrefix(raw: seq<RawDiagnostic>, m: nat, id: string)
    requires m <= |raw| && Occurs(raw[..m], id)
    ensures Occurs(raw, id) && FirstIndex(raw, id) == FirstIndex(raw[..m], id)
  {
    var j := FirstIndex(raw[..m], id);
    assert IdOf(raw[j]) == id;
    var f := FirstIndex(raw, id);
    assert forall k :: 0 <= k < j ==> raw[k] == raw[..m][k];
    assert forall k :: 0 <= k < j ==> IdOf(raw[k]) != id;
  }

  /** Each group keeps the message of the first diagnostic with its id, and the lines of all of them. */
  lemma GroupContents(raw: seq<RawDiagnostic>, ignored: set<string>, i: nat)
    requires i < |Grouped(raw, ignored)|
    ensures var g := Grouped(raw, ignored)[i];
      exists j :: 0 <= j < |raw| && IdOf(raw[j]) == g.id && g.message == MessageOf(raw[j])
        && (forall k :: 0 <= k < j ==> IdOf(raw[k]) != g.id)
    ensures var g := Grouped(raw, ignored)[i];
      forall k :: 0 <= k < |raw| && IdOf(raw[k]) == g.id ==> raw[k].line in g.lines
    ensures var g := Grouped(raw, ignored)[i];
      forall x :: x in g.lines ==> exists k :: 0 <= k < |raw| && IdOf(raw[k]) == g.id && raw[k].line == x
  {
    var id := KeptIds(raw, ignored)[i];
    var j := FirstIndex(raw, id);
    assert IdOf(raw[j]) == id;
    LinesOfMembers(raw, id);
  }

  // ---------------------------------------------------------------------------
  // Grouping what grouping produced

  /** One diagnostic per line of a group, each with the group's id and message. */
  function Block(id: string, message: string, lines: seq<int>): (b: seq<RawDiagnostic>)
    ensures |b| == |lines|
    ensures forall k :: 0 <= k < |b| ==> b[k] == RawDiagnostic(Some(id), Some(message), lines[k])
  {
    if lines == [] then []
    else Block(id, message, lines[..|lines| - 1]) + [RawDiagnostic(Some(id), Some(message), lines[|lines| - 1])]
  }

  /** The groups written back out as diagnostics, group by group and line by line. */
  function Flatten(groups: seq<Group>): seq<RawDiagnostic> {
    if groups == [] then []
    else
      var g := groups[|groups| - 1];
      Flatten(groups[..|groups| - 1]) + Block(g.id, g.message, g.lines)
  }

  /** The ids of `groups`, in order. */
  function IdsOf(groups: seq<Group>): (ids: seq<string>)
    ensures |ids| == |groups| && forall i :: 0 <= i < |groups| ==> ids[i] == groups[i].id
  {
    seq(|groups|, i requires 0 <= i < |groups| => groups[i].id)
  }

  /** Grouping what grouping produced gives back the same groups. */
  lemma GroupingIdempotent(raw: seq<RawDiagnostic>, ignored: set<string>)
    ensures Grouped(Flatten(Grouped(raw, ignored)), ignored) == Grouped(raw, ignored)
  {
    var groups := Grouped(raw, ignored);
    var ids := KeptIds(raw, ignored);
    assert IdsOf(groups) == ids;
    forall i | 0 <= i < |groups| ensures groups[i].lines != [] {
      var j := FirstIndex(raw, ids[i]);
      LinesOfMembers(raw, ids[i]);
      assert raw[j].line in groups[i].lines;
    }
    RegroupFlatten(groups, ignored);
  }

  /**
    Groups with distinct ids, none of them ignored and each with a line, are
    what grouping their flattening gives.
   */
  lemma {:induction false} RegroupFlatten(groups: seq<Group>, ignored: set<string>)
    requires Distinct(IdsOf(groups))
    requires forall i :: 0 <= i < |groups| ==> groups[i].id !in ignored && groups[i].lines != []
    ensures Grouped(Flatten(groups), ignored) == groups
  {
    FlattenKeepsGroups(groups, ignored);
    var raw := Flatten(groups);
    var regrouped := Grouped(raw, ignored);
    assert |regrouped| == |groups|;
    forall i | 0 <= i < |groups| ensures regrouped[i] == groups[i] {
      var id := groups[i].id;
      assert KeptIds(raw, ignored)[i] == id;
      assert regrouped[i] == GroupOf(raw, id);
    }
  }

  /** Grouping `raw` gives `groups`: its keys are their ids, and each id's group is the one given. */
  ghost predicate Regroups(raw: seq<RawDiagnostic>, groups: seq<Group>, ignored: set<string>) {
    && KeptIds(raw, ignored) == IdsOf(groups)
    && forall i :: 0 <= i < |groups| ==> Occurs(raw, groups[i].id) && GroupOf(raw, groups[i].id) == groups[i]
  }

  lemma {:induction false} FlattenKeepsGroups(groups: seq<Group>, ignored: set<string>)
    requires Distinct(IdsOf(groups))
    requires forall i :: 0 <= i < |groups| ==> groups[i].id !in ignored && groups[i].lines != []
    ensures Regroups(Flatten(groups), groups, ignored)
  {
    if groups != [] {
      var n := |groups| - 1;
      var init, g := groups[..n], groups[n];
      assert IdsOf(init) == IdsOf(groups)[..n];
      FlattenKeepsGroups(init, ignored);
      assert groups == init + [g];
      assert g.id !in IdsOf(init);
      RegroupsBlock(Flatten(init), init, g, ignored);
    }
  }

  /** Following the flattening of some groups by the block of a group with a new id groups to one more group. */
  lemma RegroupsBlock(a: seq<RawDiagnostic>, groups: seq<Group>, g: Group, ignored: set<string>)
    requires Regroups(a, groups, ignored)
    requires g.id !in IdsOf(groups) && g.id !in ignored && g.lines != []
    ensures Regroups(a + Block(g.id, g.message, g.lines), groups + [g], ignored)
  {
    var s := a + Block(g.id, g.message, g.lines);
    var extended := groups + [g];
    NewKeyAfterBlock(a, groups, g, ignored);
    NewIdInBlock(a, g.id, g.message, g.lines);
    OldGroupsKept(a, groups, g);
    forall i | 0 <= i < |extended| ensures Occurs(s, extended[i].id) && GroupOf(s, extended[i].id) == extended[i] {
      if i < |groups| {
        assert extended[i] == groups[i];
      }
    }
  }

  /** The block of a group with a new id adds that id as the last key. */
  lemma NewKeyAfterBlock(a: seq<RawDiagnostic>, groups: seq<Group>, g: Group, ignored: set<string>)
    requires KeptIds(a, ignored) == IdsOf(groups)
    requires g.id !in IdsOf(groups) && g.id !in ignored && g.lines != []
    ensures !Occurs(a, g.id)
    ensures KeptIds(a + Block(g.id, g.message, g.lines), ignored) == IdsOf(groups + [g])
  {
    KeptIdsBlock(a, g.id, g.message, g.lines, ignored);
    assert IdsOf(groups + [g]) == IdsOf(groups) + [g.id];
  }

  /** The groups already there are unchanged by the block of another id. */
  lemma OldGroupsKept(a: seq<RawDiagnostic>, groups: seq<Group>, g: Group)
    requires forall i :: 0 <= i < |groups| ==> Occurs(a, groups[i].id) && GroupOf(a, groups[i].id) == groups[i]
    requires g.id !in IdsOf(groups)
    ensures forall i :: 0 <= i < |groups| ==>
      var s := a + Block(g.id, g.message, g.lines);
      Occurs(s, groups[i].id) && GroupOf(s, groups[i].id) == groups[i]
  {
    forall i | 0 <= i < |groups|
      ensures var s := a + Block(g.id, g.message, g.lines);
        Occurs(s, groups[i].id) && GroupOf(s, groups[i].id) == groups[i]
    {
      assert IdsOf(groups)[i] == groups[i].id;
      OldIdInBlock(a, g.id, g.message, g.lines, groups[i].id);
    }
  }

  /** A block extends the key order by its id, unless that id is ignored or already a key. */
  lemma {:induction false} KeptIdsBlock(a: seq<RawDiagnostic>, id: string, message: string, lines: seq<int>,
                                        ignored: set<string>)
    requires lines != []
    ensures KeptIds(a + Block(id, message, lines), ignored)
      == (if id in ignored || id in KeptIds(a, ignored) then KeptIds(a, ignored) else KeptIds(a, ignored) + [id])
  {
    var m := |lines| - 1;
    var d := RawDiagnostic(Some(id), Some(message), lines[m]);
    assert a + Block(id, message, lines) == (a + Block(id, message, lines[..m])) + [d];
    KeptIdsStep(a + Block(id, message, lines[..m]), d, ignored);
    if m > 0 {
      KeptIdsBlock(a, id, message, lines[..m], ignored);
    } else {
      assert a + Block(id, message, lines[..m]) == a;
    }
  }

  /** A block adds its lines to its own id and nothing to any other. */
  lemma {:induction false} LinesOfBlock(a: seq<RawDiagnostic>, id: string, message: string, lines: seq<int>, x: string)
    ensures LinesOf(a + Block(id, message, lines), x) == LinesOf(a, x) + (if x == id then lines else [])
  {
    if lines != [] {
      var m := |lines| - 1;
      var s := a + Block(id, message, lines);
      assert s[..|s| - 1] == a + Block(id, message, lines[..m]);
      LinesOfBlock(a, id, message, lines[..m], x);
      assert lines[..m] + [lines[m]] == lines;
    } else {
      assert a + Block(id, message, lines) == a;
    }
  }

  /** An id already present, other than the block's, keeps its group when a block follows. */
  lemma OldIdInBlock(a: seq<RawDiagnostic>, id: string, message: string, lines: seq<int>, x: string)
    requires Occurs(a, x) && x != id
    ensures Occurs(a + Block(id, message, lines), x)
    ensures GroupOf(a + Block(id, message, lines), x) == GroupOf(a, x)
  {
    var s := a + Block(id, message, lines);
    assert s[..|a|] == a;
    FirstIndexOfPrefix(s, |a|, x);
    LinesOfBlock(a, id, message, lines, x);
  }

  /** A block for a new id is that id's whole group. */
  lemma NewIdInBlock(a: seq<RawDiagnostic>, id: string, message: string, lines: seq<int>)
    requires !Occurs(a, id) && lines != []
    ensures Occurs(a + Block(id, message, lines), id)
    ensures GroupOf(a + Block(id, message, lines), id) == Group(id, message, lines)
  {
    var s := a + Block(id, message, lines);
    assert IdOf(s[|a|]) == id;
    var j := FirstIndex(s, id);
    assert forall k :: 0 <= k < |a| ==> s[k] == a[k];
    LinesOfBlock(a, id, message, lines, id);
  }
}
