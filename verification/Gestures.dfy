/**
 What the edits of the web client mean once they are merged (web/src/lib/stores/notes.ts):
 each gesture is a bundle of mutations under one stamp, and whole bundles keep invariants
 across fields although every field is arbitrated on its own.
 */
module Gestures {
  import opened Results
  import opened Models
  import opened SyncSpec
  import opened Merge
  import opened Lex

  datatype Gesture =
    | Pin(id: RowId, stamp: string)
    | Unpin(id: RowId, stamp: string)
    | Archive(id: RowId, stamp: string, archivePosition: string)
    | Unarchive(id: RowId, stamp: string)
    | EditNote(id: RowId, stamp: string, field: Field, text: string)
    | Trash(id: RowId, stamp: string, at: int)
    | Restore(id: RowId, stamp: string)
    | EditItem(item: RowId, noteId: RowId, stamp: string, field: Field, value: Json)
    | RemoveItem(item: RowId, noteId: RowId, stamp: string)
    | Plain(m: Mutation)

  function NoteMutation(id: RowId, f: Field, v: Json, stamp: string): Mutation {
    Mutation(NoteEntity, Some(id), None, None, f, v, stamp)
  }

  function ItemMutation(x: RowId, noteId: RowId, f: Field, v: Json, stamp: string): Mutation {
    Mutation(ItemEntity, Some(x), Some(noteId), None, f, v, stamp)
  }

  /** The mutations a gesture queues. */
  function Bundle(g: Gesture): seq<Mutation> {
    match g
    case Pin(id, stamp) =>
      [NoteMutation(id, Pinned, JBool(true), stamp), NoteMutation(id, Archived, JBool(false), stamp)]
    case Unpin(id, stamp) => [NoteMutation(id, Pinned, JBool(false), stamp)]
    case Archive(id, stamp, p) =>
      [NoteMutation(id, Archived, JBool(true), stamp), NoteMutation(id, Pinned, JBool(false), stamp),
       NoteMutation(id, ArchivePosition, JString(p), stamp)]
    case Unarchive(id, stamp) => [NoteMutation(id, Archived, JBool(false), stamp)]
    case EditNote(id, stamp, f, text) =>
      [NoteMutation(id, f, JString(text), stamp), NoteMutation(id, TrashedAt, JNull, stamp)]
    case Trash(id, stamp, at) => [NoteMutation(id, TrashedAt, JInt(at), stamp)]
    case Restore(id, stamp) => [NoteMutation(id, TrashedAt, JNull, stamp)]
    case EditItem(x, n, stamp, f, v) =>
      [ItemMutation(x, n, f, v, stamp), ItemMutation(x, n, Deleted, JBool(false), stamp)]
    case RemoveItem(x, n, stamp) => [ItemMutation(x, n, Deleted, JBool(true), stamp)]
    case Plain(m) => [m]
  }

  function Flatten(gs: seq<Gesture>): seq<Mutation> {
    if gs == [] then [] else Flatten(gs[..|gs| - 1]) + Bundle(gs[|gs| - 1])
  }

  // ---- pinned and archived exclude each other ----

  function PinClock(t: Tables, id: RowId): Option<string> {
    ClockOf(t, NoteReg(id, Pinned))
  }

  function ArchiveClock(t: Tables, id: RowId): Option<string> {
    ClockOf(t, NoteReg(id, Archived))
  }

  predicate IsPinned(t: Tables, id: RowId) {
    ValueOf(t, NoteReg(id, Pinned)) == SFlag(true)
  }

  predicate IsArchived(t: Tables, id: RowId) {
    ValueOf(t, NoteReg(id, Archived)) == SFlag(true)
  }

  /** b's stamp is at least a's. */
  predicate AtLeast(b: Option<string>, a: Option<string>) {
    a.Some? && Covers(b, a.value)
  }

  /** A note that is pinned was un-archived at least as late, and the other way round. */
  predicate Exclusive(t: Tables, id: RowId) {
    && !(IsPinned(t, id) && IsArchived(t, id))
    && (IsPinned(t, id) ==> AtLeast(ArchiveClock(t, id), PinClock(t, id)))
    && (IsArchived(t, id) ==> AtLeast(PinClock(t, id), ArchiveClock(t, id)))
  }

  /** A mutation that is not part of a pin or archive gesture. */
  predicate LeavesPins(m: Mutation) {
    m.entity.NoteEntity? ==> !m.field.Pinned? && !m.field.Archived?
  }

  predicate PinsInBundles(gs: seq<Gesture>) {
    forall i :: 0 <= i < |gs| ==>
      (gs[i].Plain? ==> LeavesPins(gs[i].m)) && (gs[i].EditNote? ==> !gs[i].field.Pinned? && !gs[i].field.Archived?)
  }

  lemma OtherMutationKeepsExclusive(t: Tables, m: Mutation, id: RowId)
    requires Exclusive(t, id) && ApplyOne(t, m).Ok?
    requires !Targets(m, NoteReg(id, Pinned)) && !Targets(m, NoteReg(id, Archived))
    ensures Exclusive(ApplyOne(t, m).value, id)
  {
    ApplyOneIsRegisterWrite(t, m);
  }

  /** One write, seen from one flag of a note. */
  lemma FlagWrite(t: Tables, id: RowId, f: Field, b: bool, stamp: string, g: Field)
    requires f.Pinned? || f.Archived?
    requires g.Pinned? || g.Archived?
    requires ApplyOne(t, NoteMutation(id, f, JBool(b), stamp)).Ok?
    ensures var t' := ApplyOne(t, NoteMutation(id, f, JBool(b), stamp)).value;
            var q := NoteReg(id, g);
            if g != f || Covers(ClockOf(t, q), stamp)
            then ClockOf(t', q) == ClockOf(t, q) && ValueOf(t', q) == ValueOf(t, q)
            else ClockOf(t', q) == Some(stamp) && ValueOf(t', q) == SFlag(b)
  {
    ApplyOneIsRegisterWrite(t, NoteMutation(id, f, JBool(b), stamp));
  }

  /** The facts about three stamps the case analysis needs. */
  lemma StampOrder(a: Option<string>, b: Option<string>, s: string)
    ensures !Less(s, s)
    ensures AtLeast(a, b) && Covers(b, s) ==> Covers(a, s)
    ensures AtLeast(b, a) && Covers(a, s) ==> Covers(b, s)
    ensures a.Some? && !Covers(a, s) ==> Covers(Some(s), a.value)
    ensures b.Some? && !Covers(b, s) ==> Covers(Some(s), b.value)
  {
    LessIrreflexive(s);
    if AtLeast(a, b) && Covers(b, s) {
      CoversTransitive(a, b.value, s);
    }
    if AtLeast(b, a) && Covers(a, s) {
      CoversTransitive(b, a.value, s);
    }
    if a.Some? && Less(a.value, s) {
      LessAsymmetric(a.value, s);
    }
    if b.Some? && Less(b.value, s) {
      LessAsymmetric(b.value, s);
    }
  }

  /** Clearing one flag keeps the exclusion. */
  lemma ClearKeepsExclusive(t: Tables, id: RowId, f: Field, stamp: string)
    requires f.Pinned? || f.Archived?
    requires Exclusive(t, id) && ApplyOne(t, NoteMutation(id, f, JBool(false), stamp)).Ok?
    ensures Exclusive(ApplyOne(t, NoteMutation(id, f, JBool(false), stamp)).value, id)
  {
    FlagWrite(t, id, f, false, stamp, Pinned);
    FlagWrite(t, id, f, false, stamp, Archived);
    StampOrder(PinClock(t, id), ArchiveClock(t, id), stamp);
  }

  /** Setting one flag and clearing the other under the same stamp keeps the exclusion. */
  lemma SwapKeepsExclusive(t: Tables, id: RowId, f: Field, g: Field, stamp: string)
    requires (f.Pinned? && g.Archived?) || (f.Archived? && g.Pinned?)
    requires Exclusive(t, id) && ApplyOne(t, NoteMutation(id, f, JBool(true), stamp)).Ok?
    requires ApplyOne(ApplyOne(t, NoteMutation(id, f, JBool(true), stamp)).value,
                      NoteMutation(id, g, JBool(false), stamp)).Ok?
    ensures Exclusive(ApplyOne(ApplyOne(t, NoteMutation(id, f, JBool(true), stamp)).value,
                               NoteMutation(id, g, JBool(false), stamp)).value, id)
  {
    var t1 := ApplyOne(t, NoteMutation(id, f, JBool(true), stamp)).value;
    FlagWrite(t, id, f, true, stamp, Pinned);
    FlagWrite(t, id, f, true, stamp, Archived);
    FlagWrite(t1, id, g, false, stamp, Pinned);
    FlagWrite(t1, id, g, false, stamp, Archived);
    StampOrder(PinClock(t, id), ArchiveClock(t, id), stamp);
    StampOrder(ArchiveClock(t, id), PinClock(t, id), stamp);
  }

  lemma LogOfOne(t: Tables, m: Mutation)
    ensures ApplyLog(t, [m]) == ApplyOne(t, m)
  {
    assert [m][..0] == [];
  }

  lemma LogOfTwo(t: Tables, m: Mutation, w: Mutation)
    ensures ApplyLog(t, [m, w]) == if ApplyOne(t, m).Ok? then ApplyOne(ApplyOne(t, m).value, w) else ApplyOne(t, m)
  {
    LogOfOne(t, m);
    assert [m, w][..1] == [m];
  }

  lemma LogOfThree(t: Tables, m: Mutation, w: Mutation, y: Mutation)
    ensures ApplyLog(t, [m, w, y])
            == if ApplyLog(t, [m, w]).Ok? then ApplyOne(ApplyLog(t, [m, w]).value, y) else ApplyLog(t, [m, w])
  {
    assert [m, w, y][..2] == [m, w];
  }

  lemma PinGestureKeepsExclusive(t: Tables, g: Gesture, id: RowId)
    requires Exclusive(t, id) && ApplyLog(t, Bundle(g)).Ok?
    requires g.Pin? || g.Unpin? || g.Archive? || g.Unarchive?
    ensures Exclusive(ApplyLog(t, Bundle(g)).value, id)
  {
    var ms := Bundle(g);
    if g.Unpin? || g.Unarchive? {
      LogOfOne(t, ms[0]);
      if g.id == id {
        ClearKeepsExclusive(t, id, ms[0].field, g.stamp);
      } else {
        OtherMutationKeepsExclusive(t, ms[0], id);
      }
    } else {
      LogOfTwo(t, ms[0], ms[1]);
      if g.Archive? {
        LogOfThree(t, ms[0], ms[1], ms[2]);
      } else {
        assert ms == [ms[0], ms[1]];
      }
      var t1 := ApplyOne(t, ms[0]).value;
      var t2 := ApplyLog(t, [ms[0], ms[1]]).value;
      if g.id == id {
        SwapKeepsExclusive(t, id, ms[0].field, ms[1].field, g.stamp);
      } else {
        OtherMutationKeepsExclusive(t, ms[0], id);
        OtherMutationKeepsExclusive(t1, ms[1], id);
      }
      if g.Archive? {
        OtherMutationKeepsExclusive(t2, ms[2], id);
      }
    }
  }

  lemma OtherGestureKeepsExclusive(t: Tables, g: Gesture, id: RowId)
    requires Exclusive(t, id) && ApplyLog(t, Bundle(g)).Ok?
    requires !(g.Pin? || g.Unpin? || g.Archive? || g.Unarchive?)
    requires PinsInBundles([g])
    ensures Exclusive(ApplyLog(t, Bundle(g)).value, id)
  {
    var ms := Bundle(g);
    assert [g][0] == g;
    LogOfOne(t, ms[0]);
    if |ms| == 2 {
      LogOfTwo(t, ms[0], ms[1]);
    }
    OtherMutationKeepsExclusive(t, ms[0], id);
    if |ms| == 2 {
      OtherMutationKeepsExclusive(ApplyOne(t, ms[0]).value, ms[1], id);
    }
  }

  /** Whole bundles, in any interleaving, from any number of devices, keep the exclusion. */
  lemma {:induction false} GesturesKeepExclusive(t: Tables, gs: seq<Gesture>, id: RowId)
    requires Exclusive(t, id) && PinsInBundles(gs) && ApplyLog(t, Flatten(gs)).Ok?
    ensures Exclusive(ApplyLog(t, Flatten(gs)).value, id)
  {
    if gs != [] {
      var n := |gs| - 1;
      ApplyLogAppend(t, Flatten(gs[..n]), Bundle(gs[n]));
      GesturesKeepExclusive(t, gs[..n], id);
      var before := ApplyLog(t, Flatten(gs[..n])).value;
      if gs[n].Pin? || gs[n].Unpin? || gs[n].Archive? || gs[n].Unarchive? {
        PinGestureKeepsExclusive(before, gs[n], id);
      } else {
        OtherGestureKeepsExclusive(before, gs[n], id);
      }
    }
  }

  /** A server step whose pushes consist of whole bundles. */
  ghost predicate Bundled(step: Step) {
    step.Push? ==> exists gs :: PinsInBundles(gs) && step.batch == Flatten(gs)
  }

  lemma StepKeepsExclusive(t: Tables, step: Step, id: RowId)
    requires Exclusive(t, id) && Bundled(step)
    ensures Exclusive(Take(t, step), id)
  {
    if step.Push? && ApplyLog(t, step.batch).Ok? {
      var gs :| PinsInBundles(gs) && step.batch == Flatten(gs);
      GesturesKeepExclusive(t, gs, id);
    }
  }

  /**
   No reachable server state has a note both pinned and archived, whatever the devices' clocks:
   over every run of pushes of whole bundles, in any order and with any duplication, mixed with
   every other step of the server.
   */
  lemma {:induction false} PinnedExcludesArchived(steps: seq<Step>, id: RowId)
    requires forall i :: 0 <= i < |steps| ==> Bundled(steps[i])
    ensures var t := TakeAll(EmptyTables(), steps);
            && Exclusive(t, id)
            && (id in t.notes ==> !(t.notes[id].data.pinned && t.notes[id].data.archived))
  {
    if steps != [] {
      var n := |steps| - 1;
      PinnedExcludesArchived(steps[..n], id);
      StepKeepsExclusive(TakeAll(EmptyTables(), steps[..n]), steps[n], id);
    }
  }

  /** Without bundling the exclusion is lost: the same edits under separate stamps can leave both flags set. */
  lemma SplitBundlesLoseExclusion(id: RowId)
    ensures var log := [NoteMutation(id, Pinned, JBool(true), "3"), NoteMutation(id, Archived, JBool(false), "1"),
                        NoteMutation(id, Archived, JBool(true), "2"), NoteMutation(id, Pinned, JBool(false), "2")];
            && ApplyLog(EmptyTables(), log).Ok?
            && IsPinned(ApplyLog(EmptyTables(), log).value, id)
            && IsArchived(ApplyLog(EmptyTables(), log).value, id)
  {
    var m0, m1 := NoteMutation(id, Pinned, JBool(true), "3"), NoteMutation(id, Archived, JBool(false), "1");
    var m2, m3 := NoteMutation(id, Archived, JBool(true), "2"), NoteMutation(id, Pinned, JBool(false), "2");
    var d := DefaultNote();
    var t0 := EmptyTables();
    var t1 := PutNote(t0, id, d.(pinned := true), map[Pinned := "3"]);
    var t2 := PutNote(t1, id, d.(pinned := true), map[Pinned := "3", Archived := "1"]);
    var t3 := PutNote(t2, id, d.(pinned := true, archived := true), map[Pinned := "3", Archived := "2"]);
    assert Less("1", "2") && Less("2", "3") && !Less("2", "1") && !Less("3", "2");
    assert ApplyOne(t0, m0) == Ok(t1);
    assert ApplyOne(t1, m1) == Ok(t2) by {
      assert map[Pinned := "3"][Archived := "1"] == map[Pinned := "3", Archived := "1"];
    }
    assert ApplyOne(t2, m2) == Ok(t3) by {
      assert map[Pinned := "3", Archived := "1"][Archived := "2"] == map[Pinned := "3", Archived := "2"];
    }
    assert ApplyOne(t3, m3) == Ok(t3);
    LogOfTwo(t0, m0, m1);
    LogOfThree(t0, m0, m1, m2);
    assert [m0, m1, m2, m3][..3] == [m0, m1, m2];
  }

  // ---- an overruled write was overruled by a newer one ----

  /** No other write of the log, and no earlier one, uses m's stamp on m's register. */
  ghost predicate UniqueStamp(t0: Tables, log: seq<Mutation>, m: Mutation) {
    && WellAddressed(m)
    && ClockOf(t0, RegOf(m)) != Some(m.hlc)
    && forall w :: w in log && Targets(w, RegOf(m)) && w.hlc == m.hlc ==> w.value == m.value && w.field == m.field
  }

  predicate NewerThan(c: Option<string>, s: string) {
    c.Some? && Less(s, c.value)
  }

  /** A register either holds an accepted write or something strictly newer, in every order of arrival. */
  lemma Overruled(t0: Tables, log: seq<Mutation>, m: Mutation)
    requires ApplyLog(t0, log).Ok? && m in log && UniqueStamp(t0, log, m)
    ensures var t, q := ApplyLog(t0, log).value, RegOf(m);
            Decode(m.field, m.value) == Ok(ValueOf(t, q)) || NewerThan(ClockOf(t, q), m.hlc)
    ensures RowExists(ApplyLog(t0, log).value, RegOf(m))
  {
    var t, q := ApplyLog(t0, log).value, RegOf(m);
    LogOutcome(t0, log, q);
    LessTotal(m.hlc, ClockOf(t, q).value);
    if ClockOf(t, q).value == m.hlc {
      var w :| Winner(t0, log, t, q, w);
    }
    LogRows(t0, log, q);
    assert SameRow(q, RegOf(m));
  }

  lemma {:induction false} InFlatten(gs: seq<Gesture>, g: Gesture, m: Mutation)
    requires g in gs && m in Bundle(g)
    ensures m in Flatten(gs)
  {
    var n := |gs| - 1;
    if gs[n] != g {
      InFlatten(gs[..n], g, m);
    }
  }

  /**
   An edit newer than a deletion survives it: if a note ends up in the trash, every content edit
   accepted for it, in whatever order, carries a smaller stamp than the trashing.
   */
  lemma TrashOverrulesEdits(t0: Tables, gs: seq<Gesture>, g: Gesture)
    requires ApplyLog(t0, Flatten(gs)).Ok? && g in gs && g.EditNote?
    requires UniqueStamp(t0, Flatten(gs), NoteMutation(g.id, TrashedAt, JNull, g.stamp))
    ensures var t := ApplyLog(t0, Flatten(gs)).value;
            && g.id in t.notes
            && (t.notes[g.id].data.trashedAt.Some? ==> NewerThan(ClockOf(t, NoteReg(g.id, TrashedAt)), g.stamp))
  {
    var m := NoteMutation(g.id, TrashedAt, JNull, g.stamp);
    assert Bundle(g)[1] == m;
    InFlatten(gs, g, m);
    Overruled(t0, Flatten(gs), m);
  }

  /** The same for checklist items: a deleted item has only older edits. */
  lemma DeletionOverrulesEdits(t0: Tables, gs: seq<Gesture>, g: Gesture)
    requires ApplyLog(t0, Flatten(gs)).Ok? && g in gs && g.EditItem?
    requires UniqueStamp(t0, Flatten(gs), ItemMutation(g.item, g.noteId, Deleted, JBool(false), g.stamp))
    ensures var t := ApplyLog(t0, Flatten(gs)).value;
            && g.item in t.items
            && (t.items[g.item].data.deleted ==> NewerThan(ClockOf(t, ItemReg(g.item, Deleted)), g.stamp))
  {
    var m := ItemMutation(g.item, g.noteId, Deleted, JBool(false), g.stamp);
    assert Bundle(g)[1] == m;
    InFlatten(gs, g, m);
    Overruled(t0, Flatten(gs), m);
  }
}
