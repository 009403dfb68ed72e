/**
 The search index (server/internal/searchsvc/searchsvc.go): one denormalised row per note,
 rewritten only by the writes that can change a note's searchable text. The order of items
 with equal position keys is the database's choice, so a refresh is a relation.
 */
module SearchIndex {
  import opened Results
  import opened Models
  import opened SyncSpec
  import opened Merge
  import opened History
  import Lex
  import Seqs

  datatype FtsRow = FtsRow(noteId: RowId, title: string, content: string)

  type Index = seq<FtsRow>

  // ---- what a row of the index should say ----

  /** The texts of a note's items that are not deleted. */
  function LiveTexts(t: Tables, n: RowId): map<RowId, string> {
    map x | x in t.items && t.items[x].noteId == n && !t.items[x].data.deleted :: t.items[x].data.text
  }

  function Join(lines: seq<string>): string {
    if lines == [] then ""
    else if |lines| == 1 then lines[0]
    else Join(lines[..|lines| - 1]) + "\n" + lines[|lines| - 1]
  }

  // ---- what a joined text reads as ----

  /** The lines of a text, cut at every line feed. */
  function Lines(s: string): (lines: seq<string>)
    ensures lines != []
  {
    if s == "" then [""]
    else
      var rest := Lines(s[1..]);
      if s[0] == '\n' then [""] + rest else [[s[0]] + rest[0]] + rest[1..]
  }

  lemma {:induction false} LinesOfOne(s: string)
    requires '\n' !in s
    ensures Lines(s) == [s]
  {
    if s != "" {
      LinesOfOne(s[1..]);
      assert [s[0]] + s[1..] == s;
    }
  }

  lemma FirstLineGrows(c: char, a: seq<string>, b: seq<string>)
    requires a != []
    ensures [[c] + (a + b)[0]] + (a + b)[1..] == ([[c] + a[0]] + a[1..]) + b
    ensures [""] + (a + b) == ([""] + a) + b
  {
    assert (a + b)[1..] == a[1..] + b;
  }

  lemma {:induction false} LinesAppend(a: string, b: string)
    ensures Lines(a + "\n" + b) == Lines(a) + Lines(b)
  {
    var whole := a + "\n" + b;
    if a == "" {
      assert whole[0] == '\n' && whole[1..] == b;
    } else {
      LinesAppend(a[1..], b);
      assert whole[0] == a[0] && whole[1..] == a[1..] + "\n" + b;
      FirstLineGrows(a[0], Lines(a[1..]), Lines(b));
    }
  }

  /** Cutting the joined text gives the lines back, if none of them contains a line feed. */
  lemma {:induction false} LinesOfJoin(lines: seq<string>)
    requires lines != [] && forall line :: line in lines ==> '\n' !in line
    ensures Lines(Join(lines)) == lines
  {
    var n := |lines| - 1;
    assert lines[n] in lines;
    LinesOfOne(lines[n]);
    if n > 0 {
      assert forall line :: line in lines[..n] ==> line in lines;
      LinesOfJoin(lines[..n]);
      LinesAppend(Join(lines[..n]), lines[n]);
      Seqs.InitAndLast(lines);
    }
  }

  /** line stands in content as a line, or as several whole ones. */
  ghost predicate HasLine(content: string, line: string) {
    exists before, after :: content == before + line + after && EndsLine(before) && StartsLine(after)
  }

  predicate EndsLine(s: string) {
    s == "" || s[|s| - 1] == '\n'
  }

  predicate StartsLine(s: string) {
    s == "" || s[0] == '\n'
  }

  lemma StillHasLine(content: string, line: string, more: string)
    requires HasLine(content, line)
    ensures HasLine(content + "\n" + more, line)
  {
    var before, after :| content == before + line + after && EndsLine(before) && StartsLine(after);
    assert content + "\n" + more == before + line + (after + "\n" + more);
    assert StartsLine(after + "\n" + more);
  }

  lemma HasLastLine(content: string, line: string)
    ensures HasLine(content + "\n" + line, line)
    ensures HasLine(line, line)
  {
    assert content + "\n" + line == (content + "\n") + line + "" && EndsLine(content + "\n") && StartsLine("");
    assert line == "" + line + "" && EndsLine("");
  }

  /** Every line of a joined text stands in it. */
  lemma {:induction false} JoinHasLine(lines: seq<string>, i: nat)
    requires i < |lines|
    ensures HasLine(Join(lines), lines[i])
  {
    var n := |lines| - 1;
    HasLastLine(Join(lines[..n]), lines[n]);
    if i < n {
      JoinHasLine(lines[..n], i);
      StillHasLine(Join(lines[..n]), lines[i], lines[n]);
    }
  }

  // ---- the lines of a note ----

  function Texts(live: map<RowId, string>, xs: seq<RowId>): (lines: seq<string>)
    requires forall x :: x in xs ==> x in live
    ensures |lines| == |xs|
  {
    seq(|xs|, i requires 0 <= i < |xs| => live[xs[i]])
  }

  /** xs lists each live item once. */
  ghost predicate Enumerates(live: map<RowId, string>, xs: seq<RowId>) {
    && (forall x :: x in xs <==> x in live)
    && (forall i, j :: 0 <= i < j < |xs| ==> xs[i] != xs[j])
  }

  /** The list is in ascending order of position keys. */
  ghost predicate InPositionOrder(t: Tables, xs: seq<RowId>) {
    && (forall x :: x in xs ==> x in t.items)
    && forall i, j :: 0 <= i < j < |xs| ==> !Lex.Less(t.items[xs[j]].data.position, t.items[xs[i]].data.position)
  }

  ghost predicate IsLines(live: map<RowId, string>, content: string) {
    exists xs :: Enumerates(live, xs) && content == Join(Texts(live, xs))
  }

  /** The row says what the note says: its title, and its body or, for a checklist, its live items' texts. */
  ghost predicate Agrees(d: NoteData, live: map<RowId, string>, row: FtsRow) {
    && row.title == d.title
    && if d.kind == "checklist" then IsLines(live, row.content) else row.content == d.body
  }

  /** xs lists the items whose texts are the lines of the content, in order. */
  ghost predicate ReadsAs(live: map<RowId, string>, xs: seq<RowId>, content: string) {
    Enumerates(live, xs) && if xs == [] then content == "" else Lines(content) == Texts(live, xs)
  }

  /**
   What a searcher finds: the title, and the body or, for a checklist, every live text as a line
   of its own; and nothing else, as far as the lines tell the items apart.
   */
  ghost predicate Says(d: NoteData, live: map<RowId, string>, row: FtsRow) {
    && row.title == d.title
    && (d.kind != "checklist" ==> row.content == d.body)
    && (d.kind == "checklist" ==> forall x :: x in live ==> HasLine(row.content, live[x]))
    && (d.kind == "checklist" && (forall x :: x in live ==> '\n' !in live[x]) ==>
          exists xs :: ReadsAs(live, xs, row.content))
  }

  lemma LinesSay(live: map<RowId, string>, xs: seq<RowId>)
    requires Enumerates(live, xs)
    ensures forall x :: x in live ==> HasLine(Join(Texts(live, xs)), live[x])
    ensures (forall x :: x in live ==> '\n' !in live[x]) ==> ReadsAs(live, xs, Join(Texts(live, xs)))
  {
    var lines := Texts(live, xs);
    forall x | x in live ensures HasLine(Join(lines), live[x]) {
      assert x in xs;
      var i :| 0 <= i < |xs| && xs[i] == x;
      JoinHasLine(lines, i);
    }
    if xs != [] && forall x :: x in live ==> '\n' !in live[x] {
      forall line | line in lines ensures '\n' !in line {
        var i :| 0 <= i < |xs| && lines[i] == line;
        assert xs[i] in xs;
      }
      LinesOfJoin(lines);
    }
  }

  // ---- the order of a checklist's lines ----

  /** The lines of several texts together. */
  function AllLines(texts: seq<string>): multiset<string> {
    if texts == [] then multiset{}
    else AllLines(texts[..|texts| - 1]) + multiset(Lines(texts[|texts| - 1]))
  }

  lemma {:induction false} JoinHasAllLines(texts: seq<string>)
    requires texts != []
    ensures multiset(Lines(Join(texts))) == AllLines(texts)
  {
    var n := |texts| - 1;
    if n > 0 {
      JoinHasAllLines(texts[..n]);
      LinesAppend(Join(texts[..n]), texts[n]);
    } else {
      assert AllLines(texts[..0]) == multiset{};
    }
  }

  lemma {:induction false} AllLinesRemoved(texts: seq<string>, j: nat)
    requires j < |texts|
    ensures AllLines(texts) == AllLines(Seqs.Remove(texts, j)) + multiset(Lines(texts[j]))
  {
    var n := |texts| - 1;
    Seqs.RemovePrefix(texts, j);
    if j < n {
      AllLinesRemoved(texts[..n], j);
    }
  }

  ghost predicate SameElements(xs: seq<RowId>, ys: seq<RowId>) {
    && (forall x :: x in xs <==> x in ys)
    && (forall i, j :: 0 <= i < j < |xs| ==> xs[i] != xs[j])
    && (forall i, j :: 0 <= i < j < |ys| ==> ys[i] != ys[j])
  }

  lemma EmptyTogether(xs: seq<RowId>, ys: seq<RowId>)
    requires SameElements(xs, ys)
    ensures xs == [] <==> ys == []
  {
    if xs != [] {
      assert xs[0] in xs;
    }
    if ys != [] {
      assert ys[0] in ys;
    }
  }

  lemma SameWithoutLast(xs: seq<RowId>, ys: seq<RowId>) returns (j: nat)
    requires SameElements(xs, ys) && xs != []
    ensures j < |ys| && ys[j] == xs[|xs| - 1] && SameElements(xs[..|xs| - 1], Seqs.Remove(ys, j))
  {
    var n := |xs| - 1;
    assert xs[n] in ys;
    j :| 0 <= j < |ys| && ys[j] == xs[n];
    forall y ensures y in Seqs.Remove(ys, j) <==> y in ys && y != ys[j] {
      if y in ys && y != ys[j] {
        var k :| 0 <= k < |ys| && ys[k] == y;
        assert Seqs.Remove(ys, j)[if k < j then k else k - 1] == y;
      }
    }
    forall x ensures x in xs[..n] <==> x in xs && x != xs[n] {
      if x in xs && x != xs[n] {
        var k :| 0 <= k < |xs| && xs[k] == x;
        assert xs[..n][k] == x;
      }
    }
  }

  lemma TextsWithout(live: map<RowId, string>, xs: seq<RowId>, j: nat)
    requires j < |xs| && forall x :: x in xs ==> x in live
    ensures forall x :: x in Seqs.Remove(xs, j) ==> x in live
    ensures Seqs.Remove(Texts(live, xs), j) == Texts(live, Seqs.Remove(xs, j))
  {
  }

  lemma {:induction false} OrderDoesNotMatter(live: map<RowId, string>, xs: seq<RowId>, ys: seq<RowId>)
    requires SameElements(xs, ys) && (forall x :: x in xs ==> x in live) && (forall y :: y in ys ==> y in live)
    ensures AllLines(Texts(live, xs)) == AllLines(Texts(live, ys)) && (xs == [] <==> ys == [])
  {
    EmptyTogether(xs, ys);
    if xs != [] {
      var n := |xs| - 1;
      var j := SameWithoutLast(xs, ys);
      TextsWithout(live, ys, j);
      assert Texts(live, xs)[..n] == Texts(live, xs[..n]);
      OrderDoesNotMatter(live, xs[..n], Seqs.Remove(ys, j));
      AllLinesRemoved(Texts(live, ys), j);
    }
  }

  /** All arrangements of a checklist's texts have the same lines. */
  lemma ArrangementsShareLines(live: map<RowId, string>, a: string, b: string)
    requires IsLines(live, a) && IsLines(live, b)
    ensures multiset(Lines(a)) == multiset(Lines(b))
  {
    var xs :| Enumerates(live, xs) && a == Join(Texts(live, xs));
    var ys :| Enumerates(live, ys) && b == Join(Texts(live, ys));
    OrderDoesNotMatter(live, xs, ys);
    if xs != [] {
      JoinHasAllLines(Texts(live, xs));
      JoinHasAllLines(Texts(live, ys));
    }
  }

  /** A row that agrees with its note says what the note says. */
  lemma AgreementSays(d: NoteData, live: map<RowId, string>, row: FtsRow)
    requires Agrees(d, live, row)
    ensures Says(d, live, row)
  {
    if d.kind == "checklist" {
      var xs :| Enumerates(live, xs) && row.content == Join(Texts(live, xs));
      LinesSay(live, xs);
    }
  }

  /** No two rows for one note. */
  ghost predicate OneRowEach(fts: Index) {
    forall i, j :: 0 <= i < j < |fts| ==> fts[i].noteId != fts[j].noteId
  }

  /** One row per note, none otherwise, each agreeing with its note. */
  ghost predicate IndexAgrees(t: Tables, fts: Index) {
    && OneRowEach(fts)
    && (forall row :: row in fts ==>
          row.noteId in t.notes && Agrees(t.notes[row.noteId].data, LiveTexts(t, row.noteId), row))
    && (forall n :: n in t.notes ==> exists row :: row in fts && row.noteId == n)
  }

  // ---- refreshing ----

  /** DELETE ... WHERE note_id = n. */
  function DropRows(fts: Index, n: RowId): (r: Index) {
    if fts == [] then []
    else
      var init := DropRows(fts[..|fts| - 1], n);
      if fts[|fts| - 1].noteId == n then init else init + [fts[|fts| - 1]]
  }

  /** A row computed from the current tables, its lines in position order. */
  ghost predicate FreshRow(t: Tables, n: RowId, row: FtsRow)
    requires n in t.notes
  {
    var d := t.notes[n].data;
    && row.noteId == n && row.title == d.title
    && if d.kind == "checklist"
       then exists xs :: Enumerates(LiveTexts(t, n), xs) && InPositionOrder(t, xs)
                         && row.content == Join(Texts(LiveTexts(t, n), xs))
       else row.content == d.body
  }

  /** A fresh row says what the note says, a checklist's lines in position order. */
  ghost predicate SaysInOrder(t: Tables, n: RowId, row: FtsRow)
    requires n in t.notes
  {
    var d, live := t.notes[n].data, LiveTexts(t, n);
    && row.noteId == n && Says(d, live, row)
    && (d.kind == "checklist" && (forall x :: x in live ==> '\n' !in live[x]) ==>
          exists xs :: ReadsAs(live, xs, row.content) && InPositionOrder(t, xs))
  }

  lemma FreshRowSays(t: Tables, n: RowId, row: FtsRow)
    requires n in t.notes && FreshRow(t, n, row)
    ensures SaysInOrder(t, n, row)
  {
    var d, live := t.notes[n].data, LiveTexts(t, n);
    AgreementSays(d, live, row);
    if d.kind == "checklist" {
      var xs :| Enumerates(live, xs) && InPositionOrder(t, xs) && row.content == Join(Texts(live, xs));
      LinesSay(live, xs);
    }
  }

  ghost predicate Refreshed(t: Tables, fts: Index, n: RowId, fts': Index) {
    if n in t.notes then exists row :: FreshRow(t, n, row) && fts' == DropRows(fts, n) + [row]
    else fts' == DropRows(fts, n)
  }

  predicate NoteContentField(f: Field) {
    f.Title? || f.Body? || f.Kind?
  }

  predicate ItemContentField(f: Field) {
    f.Text? || f.Deleted?
  }

  /** The note a mutation re-indexes, if it re-indexes any. */
  function ReindexTarget(t: Tables, m: Mutation): Option<RowId> {
    if !Effective(t, m) then None
    else match m.entity
      case NoteEntity => if m.id.value !in t.notes || NoteContentField(m.field) then m.id else None
      case ItemEntity =>
        if m.id.value !in t.items then m.noteId
        else if !ItemContentField(m.field) then None
        else if m.noteId.Some? then m.noteId
        else Some(t.items[m.id.value].noteId)
      case _ => None
  }

  /**
   Edits of an existing row that cannot change its searchable text re-index nothing: colour, flags,
   trashing and positions of a note, tick and position of an item, and label attachments.
   */
  lemma OtherEditsReindexNothing(t: Tables, m: Mutation)
    requires m.entity.NoteEntity? && m.id.Some? ==>
               m.id.value in t.notes && m.field in {Color, Pinned, Archived, TrashedAt, Position, ArchivePosition}
    requires m.entity.ItemEntity? && m.id.Some? ==> m.id.value in t.items && m.field in {Checked, Position}
    ensures ReindexTarget(t, m).None?
  {
  }

  ghost predicate IndexStep(t: Tables, m: Mutation, t': Tables, fts: Index, fts': Index) {
    match ReindexTarget(t, m)
    case None => fts' == fts
    case Some(n) => Refreshed(t', fts, n, fts')
  }

  /** The index after a log, refreshed mutation by mutation against the tables of that moment. */
  ghost predicate IndexRun(t: Tables, log: seq<Mutation>, fts: Index, fts': Index)
    requires ApplyLog(t, log).Ok?
  {
    if log == [] then fts' == fts
    else
      var n := |log| - 1;
      exists mid :: IndexRun(t, log[..n], fts, mid)
                    && IndexStep(ApplyLog(t, log[..n]).value, log[n], ApplyLog(t, log).value, mid, fts')
  }

  // ---- the invariant ----

  /** An item mutation that names a note names the item's own. */
  predicate OwnNote(t: Tables, m: Mutation) {
    m.entity.ItemEntity? && m.id.Some? && m.id.value in t.items && m.noteId.Some?
    ==> m.noteId.value == t.items[m.id.value].noteId
  }

  /** Note n reads the same in both states as far as the index is concerned. */
  ghost predicate SameText(t: Tables, t': Tables, n: RowId) {
    && n in t.notes && n in t'.notes
    && t.notes[n].data.title == t'.notes[n].data.title
    && t.notes[n].data.body == t'.notes[n].data.body
    && t.notes[n].data.kind == t'.notes[n].data.kind
    && LiveTexts(t, n) == LiveTexts(t', n)
  }

  lemma {:induction false} DropRowsMembers(fts: Index, n: RowId)
    ensures forall row :: row in DropRows(fts, n) <==> row in fts && row.noteId != n
  {
    if fts != [] {
      var init, last := fts[..|fts| - 1], fts[|fts| - 1];
      DropRowsMembers(init, n);
      assert fts == init + [last];
    }
  }

  lemma {:induction false} DropRowsDistinct(fts: Index, n: RowId)
    requires OneRowEach(fts)
    ensures OneRowEach(DropRows(fts, n))
  {
    if fts != [] {
      var init, last := fts[..|fts| - 1], fts[|fts| - 1];
      DropRowsDistinct(init, n);
      DropRowsMembers(init, n);
      forall i | 0 <= i < |DropRows(init, n)| ensures DropRows(init, n)[i].noteId != last.noteId {
        assert DropRows(init, n)[i] in init;
      }
    }
  }

  lemma FreshRowAgrees(t: Tables, n: RowId, row: FtsRow)
    requires n in t.notes && FreshRow(t, n, row)
    ensures Agrees(t.notes[n].data, LiveTexts(t, n), row)
  {
  }

  /** Refreshing one note gives an index in agreement if the other notes' rows agree. */
  lemma RefreshCompletes(t: Tables, t': Tables, fts: Index, n: RowId, fts': Index)
    requires IndexAgrees(t, fts) && Refreshed(t', fts, n, fts')
    requires forall k :: k != n ==> (k in t.notes <==> k in t'.notes)
    requires forall row :: row in fts && row.noteId != n ==>
               row.noteId in t'.notes && Agrees(t'.notes[row.noteId].data, LiveTexts(t', row.noteId), row)
    ensures IndexAgrees(t', fts')
  {
    DropRowsMembers(fts, n);
    DropRowsDistinct(fts, n);
    if n in t'.notes {
      var row :| FreshRow(t', n, row) && fts' == DropRows(fts, n) + [row];
      FreshRowAgrees(t', n, row);
      assert row in fts';
    }
    forall k | k in t'.notes && k != n ensures exists row :: row in fts' && row.noteId == k {
      var row :| row in fts && row.noteId == k;
      assert row in DropRows(fts, n);
      assert row in fts';
    }
  }

  /** Refreshing the one note whose text may have changed restores the agreement. */
  lemma RefreshRestores(t: Tables, t': Tables, fts: Index, n: RowId, fts': Index)
    requires IndexAgrees(t, fts) && Refreshed(t', fts, n, fts')
    requires forall k :: k != n ==> (k in t.notes <==> k in t'.notes)
    requires forall k :: k != n && k in t.notes ==> SameText(t, t', k)
    ensures IndexAgrees(t', fts')
  {
    forall row | row in fts && row.noteId != n
      ensures row.noteId in t'.notes && Agrees(t'.notes[row.noteId].data, LiveTexts(t', row.noteId), row)
    {
      assert SameText(t, t', row.noteId);
    }
    RefreshCompletes(t, t', fts, n, fts');
  }

  lemma UnchangedTextsAgree(t: Tables, t': Tables, fts: Index)
    requires IndexAgrees(t, fts) && t.notes.Keys == t'.notes.Keys
    requires forall k :: k in t.notes ==> SameText(t, t', k)
    ensures IndexAgrees(t', fts)
  {
    forall row | row in fts
      ensures row.noteId in t'.notes && Agrees(t'.notes[row.noteId].data, LiveTexts(t', row.noteId), row)
    {
      assert SameText(t, t', row.noteId);
    }
  }

  lemma NoteTextUnchanged(t: Tables, m: Mutation, k: RowId)
    requires m.entity.NoteEntity? && ApplyOne(t, m).Ok? && Effective(t, m)
    requires ReindexTarget(t, m) != Some(k)
    ensures k in t.notes <==> k in ApplyOne(t, m).value.notes
    ensures k in t.notes ==> SameText(t, ApplyOne(t, m).value, k)
  {
    ApplyOneIsRegisterWrite(t, m);
    assert ApplyOne(t, m).value.items == t.items;
  }

  lemma NewItemTexts(t: Tables, m: Mutation, k: RowId)
    requires m.entity.ItemEntity? && ApplyOne(t, m).Ok? && m.id.value !in t.items && m.noteId != Some(k)
    ensures ApplyOne(t, m).value.notes == t.notes
    ensures LiveTexts(t, k) == LiveTexts(ApplyOne(t, m).value, k)
  {
  }

  /** Of an effective item mutation only the item's own note reads differently afterwards. */
  lemma ForeignTexts(t: Tables, m: Mutation, k: RowId)
    requires m.entity.ItemEntity? && ApplyOne(t, m).Ok? && Effective(t, m) && m.id.value in t.items
    requires k != t.items[m.id.value].noteId
    ensures ApplyOne(t, m).value.notes == t.notes
    ensures LiveTexts(t, k) == LiveTexts(ApplyOne(t, m).value, k)
  {
    ApplyOneIsRegisterWrite(t, m);
    var t' := ApplyOne(t, m).value;
    assert t'.items == t.items[m.id.value := t'.items[m.id.value]];
  }

  lemma EffectiveItemWrite(t: Tables, m: Mutation)
    requires m.entity.ItemEntity? && Effective(t, m) && ApplyOne(t, m).Ok? && m.id.value in t.items
    ensures Decode(m.field, m.value).Ok?
    ensures var x, row := m.id.value, t.items[m.id.value];
            ApplyOne(t, m).value == PutItem(t, x, row.noteId, SetItem(row.data, m.field, Decode(m.field, m.value).value),
                                            row.clocks[m.field := m.hlc])
  {
    var clocks := t.items[m.id.value].clocks;
    if m.field in clocks {
      Lex.CompareSign(m.hlc, clocks[m.field]);
    }
  }

  /** The live texts of the item's own note once the mutation takes effect, told from the state before it. */
  function TextsAfter(t: Tables, m: Mutation): map<RowId, string>
    requires m.entity.ItemEntity? && IsItemField(m.field) && m.id.Some? && m.id.value in t.items
  {
    var x, live := m.id.value, LiveTexts(t, t.items[m.id.value].noteId);
    var value := Decode(m.field, m.value);
    if value.Err? then live
    else
      var d := SetItem(t.items[x].data, m.field, value.value);
      if d.deleted then live - {x} else live[x := d.text]
  }

  /** Those are the live texts that a re-indexing of that note would have to list. */
  lemma TextsAfterExact(t: Tables, m: Mutation)
    requires m.entity.ItemEntity? && Effective(t, m) && ApplyOne(t, m).Ok? && m.id.value in t.items
    ensures LiveTexts(ApplyOne(t, m).value, t.items[m.id.value].noteId) == TextsAfter(t, m)
  {
    EffectiveItemWrite(t, m);
  }

  lemma ItemTextUnchanged(t: Tables, m: Mutation, k: RowId)
    requires m.entity.ItemEntity? && ApplyOne(t, m).Ok? && Effective(t, m) && OwnNote(t, m)
    requires ReindexTarget(t, m) != Some(k)
    ensures ApplyOne(t, m).value.notes == t.notes
    ensures LiveTexts(t, k) == LiveTexts(ApplyOne(t, m).value, k)
  {
    if m.id.value !in t.items {
      NewItemTexts(t, m, k);
    } else if k != t.items[m.id.value].noteId {
      ForeignTexts(t, m, k);
    } else {
      EffectiveItemWrite(t, m);
      TextsAfterExact(t, m);
    }
  }

  /** A mutation changes the text of no note but the one it re-indexes. */
  lemma OtherTextsUnchanged(t: Tables, m: Mutation, k: RowId)
    requires ApplyOne(t, m).Ok? && OwnNote(t, m) && RefsIntact(t)
    requires ReindexTarget(t, m) != Some(k)
    ensures k in t.notes <==> k in ApplyOne(t, m).value.notes
    ensures k in t.notes ==> SameText(t, ApplyOne(t, m).value, k)
  {
    var t' := ApplyOne(t, m).value;
    ApplyOneIsRegisterWrite(t, m);
    ApplyOneWritesOneRow(t, m);
    if Effective(t, m) {
      match m.entity {
        case NoteEntity => NoteTextUnchanged(t, m, k);
        case ItemEntity => ItemTextUnchanged(t, m, k);
        case NoteLabelEntity =>
      }
    }
  }

  lemma MutationKeepsIndex(t: Tables, m: Mutation, fts: Index, fts': Index)
    requires ApplyOne(t, m).Ok? && OwnNote(t, m) && RefsIntact(t) && IndexAgrees(t, fts)
    requires IndexStep(t, m, ApplyOne(t, m).value, fts, fts')
    ensures IndexAgrees(ApplyOne(t, m).value, fts')
  {
    var t' := ApplyOne(t, m).value;
    forall k | ReindexTarget(t, m) != Some(k)
      ensures k in t.notes <==> k in t'.notes
      ensures k in t.notes ==> SameText(t, t', k)
    {
      OtherTextsUnchanged(t, m, k);
    }
    match ReindexTarget(t, m) {
      case None => UnchangedTextsAgree(t, t', fts);
      case Some(n) => RefreshRestores(t, t', fts, n, fts');
    }
  }

  /** Every mutation of the log names its item's own note, if any. */
  ghost predicate OwnNotes(t: Tables, log: seq<Mutation>)
    requires ApplyLog(t, log).Ok?
  {
    log != [] ==>
      var n := |log| - 1;
      OwnNotes(t, log[..n]) && OwnNote(ApplyLog(t, log[..n]).value, log[n])
  }

  lemma {:induction false} LogKeepsIndex(t: Tables, log: seq<Mutation>, fts: Index, fts': Index)
    requires ApplyLog(t, log).Ok? && OwnNotes(t, log) && Consistent(t) && IndexAgrees(t, fts)
    requires IndexRun(t, log, fts, fts')
    ensures IndexAgrees(ApplyLog(t, log).value, fts')
  {
    if log != [] {
      var n := |log| - 1;
      var before := ApplyLog(t, log[..n]).value;
      var mid :| IndexRun(t, log[..n], fts, mid) && IndexStep(before, log[n], ApplyLog(t, log).value, mid, fts');
      LogKeepsIndex(t, log[..n], fts, mid);
      LogKeepsConsistent(t, log[..n]);
      MutationKeepsIndex(before, log[n], mid, fts');
    }
  }

  // ---- all steps of the server ----

  /** Deleting the index rows of a set of notes. */
  ghost predicate Dropped(fts: Index, gone: set<RowId>, fts': Index) {
    && (forall row :: row in fts' <==> row in fts && row.noteId !in gone)
    && OneRowEach(fts')
  }

  function ExpiredNotes(t: Tables, now: int): set<RowId> {
    set id | id in t.notes && Expired(t.notes[id], now)
  }

  ghost predicate StepIndex(t: Tables, step: Step, fts: Index, fts': Index) {
    match step
    case Push(batch) => if ApplyLog(t, batch).Ok? then IndexRun(t, batch, fts, fts') else fts' == fts
    case RecordAudio(id, _, _) => if id in t.notes then fts' == fts else Refreshed(Take(t, step), fts, id, fts')
    case PurgeNote(id) => Dropped(fts, {id}, fts')
    case SweepTrash(now) => Dropped(fts, ExpiredNotes(t, now), fts')
    case _ => fts' == fts
  }

  /** A step whose item mutations name their own notes. */
  ghost predicate StepOwnNotes(t: Tables, step: Step) {
    step.Push? && ApplyLog(t, step.batch).Ok? ==> OwnNotes(t, step.batch)
  }

  lemma RemovalKeepsIndex(t: Tables, t': Tables, gone: set<RowId>, fts: Index, fts': Index)
    requires IndexAgrees(t, fts) && Dropped(fts, gone, fts')
    requires forall k :: k in t'.notes <==> k in t.notes && k !in gone
    requires forall k :: k in t'.notes ==> SameText(t, t', k)
    ensures IndexAgrees(t', fts')
  {
    forall row | row in fts'
      ensures row.noteId in t'.notes && Agrees(t'.notes[row.noteId].data, LiveTexts(t', row.noteId), row)
    {
      assert row in fts;
      assert SameText(t, t', row.noteId);
    }
    forall k | k in t'.notes ensures exists row :: row in fts' && row.noteId == k {
      var row :| row in fts && row.noteId == k;
      assert row in fts';
    }
  }

  lemma PurgedTexts(t: Tables, id: RowId, k: RowId)
    requires k in t.notes && k != id
    ensures SameText(t, Purge(t, id), k)
  {
    assert LiveTexts(t, k) == LiveTexts(Purge(t, id), k);
  }

  lemma SweptTexts(t: Tables, now: int, k: RowId)
    requires k in t.notes && !Expired(t.notes[k], now)
    ensures SameText(t, Sweep(t, now), k)
  {
    assert LiveTexts(t, k) == LiveTexts(Sweep(t, now), k);
  }

  lemma AudioKeepsIndex(t: Tables, id: RowId, title: string, position: string, fts: Index, fts': Index)
    requires IndexAgrees(t, fts) && id !in t.notes
    requires Refreshed(CreateAudio(t, id, title, position).value, fts, id, fts')
    ensures IndexAgrees(CreateAudio(t, id, title, position).value, fts')
  {
    var t' := CreateAudio(t, id, title, position).value;
    forall k | k in t.notes ensures SameText(t, t', k) {
      assert t'.items == t.items;
    }
    RefreshRestores(t, t', fts, id, fts');
  }

  lemma PurgeKeepsIndex(t: Tables, id: RowId, fts: Index, fts': Index)
    requires IndexAgrees(t, fts) && Dropped(fts, {id}, fts')
    ensures IndexAgrees(Purge(t, id), fts')
  {
    forall k | k in t.notes && k != id ensures SameText(t, Purge(t, id), k) {
      PurgedTexts(t, id, k);
    }
    RemovalKeepsIndex(t, Purge(t, id), {id}, fts, fts');
  }

  lemma SweepKeepsIndex(t: Tables, now: int, fts: Index, fts': Index)
    requires IndexAgrees(t, fts) && Dropped(fts, ExpiredNotes(t, now), fts')
    ensures IndexAgrees(Sweep(t, now), fts')
  {
    forall k | k in Sweep(t, now).notes ensures SameText(t, Sweep(t, now), k) {
      SweptTexts(t, now, k);
    }
    RemovalKeepsIndex(t, Sweep(t, now), ExpiredNotes(t, now), fts, fts');
  }

  lemma LabelsKeepIndex(t: Tables, t': Tables, fts: Index)
    requires IndexAgrees(t, fts) && t'.notes == t.notes && t'.items == t.items
    ensures IndexAgrees(t', fts)
  {
    UnchangedTextsAgree(t, t', fts);
  }

  lemma PushKeepsIndex(t: Tables, batch: seq<Mutation>, fts: Index, fts': Index)
    requires Consistent(t) && IndexAgrees(t, fts)
    requires StepOwnNotes(t, Push(batch)) && StepIndex(t, Push(batch), fts, fts')
    ensures IndexAgrees(Take(t, Push(batch)), fts')
  {
    if ApplyLog(t, batch).Ok? {
      LogKeepsIndex(t, batch, fts, fts');
    }
  }

  /** Every step of the server keeps the index in agreement with the rows. */
  lemma StepKeepsIndex(t: Tables, step: Step, fts: Index, fts': Index)
    requires Consistent(t) && IndexAgrees(t, fts)
    requires StepOwnNotes(t, step) && StepIndex(t, step, fts, fts')
    ensures IndexAgrees(Take(t, step), fts')
  {
    match step {
      case Push(batch) => PushKeepsIndex(t, batch, fts, fts');
      case RecordAudio(id, title, position) =>
        if id !in t.notes {
          AudioKeepsIndex(t, id, title, position, fts, fts');
        }
      case PurgeNote(id) => PurgeKeepsIndex(t, id, fts, fts');
      case SweepTrash(now) => SweepKeepsIndex(t, now, fts, fts');
      case AddLabel(_) => LabelsKeepIndex(t, Take(t, step), fts);
      case RemoveLabel(_) => LabelsKeepIndex(t, Take(t, step), fts);
    }
  }

  /** A run of the server from the empty database, with the index after each step. */
  ghost predicate IndexedRun(steps: seq<Step>, indexes: seq<Index>) {
    && |indexes| == |steps| + 1 && indexes[0] == []
    && forall i :: 0 <= i < |steps| ==>
         && StepOwnNotes(TakeAll(EmptyTables(), steps[..i]), steps[i])
         && StepIndex(TakeAll(EmptyTables(), steps[..i]), steps[i], indexes[i], indexes[i + 1])
  }

  lemma IndexedPrefix(steps: seq<Step>, indexes: seq<Index>)
    requires IndexedRun(steps, indexes) && steps != []
    ensures var n := |steps| - 1;
            && IndexedRun(steps[..n], indexes[..n + 1])
            && StepOwnNotes(TakeAll(EmptyTables(), steps[..n]), steps[n])
            && StepIndex(TakeAll(EmptyTables(), steps[..n]), steps[n], indexes[n], indexes[n + 1])
  {
    var n := |steps| - 1;
    assert forall i :: 0 <= i < n ==> steps[..n][..i] == steps[..i];
  }

  /** Every note has exactly one row, which says what the note says, and there are no others. */
  ghost predicate IndexSays(t: Tables, fts: Index) {
    && OneRowEach(fts)
    && (forall row :: row in fts ==>
          row.noteId in t.notes && Says(t.notes[row.noteId].data, LiveTexts(t, row.noteId), row))
    && (forall n :: n in t.notes ==> exists row :: row in fts && row.noteId == n)
  }

  lemma AgreeingIndexSays(t: Tables, fts: Index)
    requires IndexAgrees(t, fts)
    ensures IndexSays(t, fts)
  {
    forall row | row in fts ensures Says(t.notes[row.noteId].data, LiveTexts(t, row.noteId), row) {
      AgreementSays(t.notes[row.noteId].data, LiveTexts(t, row.noteId), row);
    }
  }

  /** In every reachable state the index agrees with a scan of the rows. */
  lemma {:induction false} IndexAlwaysAgrees(steps: seq<Step>, indexes: seq<Index>)
    requires IndexedRun(steps, indexes)
    ensures IndexAgrees(TakeAll(EmptyTables(), steps), indexes[|steps|])
    ensures IndexSays(TakeAll(EmptyTables(), steps), indexes[|steps|])
  {
    if steps != [] {
      var n := |steps| - 1;
      var before := TakeAll(EmptyTables(), steps[..n]);
      IndexedPrefix(steps, indexes);
      IndexAlwaysAgrees(steps[..n], indexes[..n + 1]);
      ReachableConsistent(steps[..n]);
      StepKeepsIndex(before, steps[n], indexes[n], indexes[n + 1]);
    }
    AgreeingIndexSays(TakeAll(EmptyTables(), steps), indexes[|steps|]);
  }

  lemma OneRow(fts: Index, row: FtsRow, other: FtsRow)
    requires OneRowEach(fts) && row in fts && other in fts && row.noteId == other.noteId
    ensures row == other
  {
  }

  /**
   An item mutation that names another note, exactly and told before the call: whatever text or
   deletion mark it writes, the index agrees afterwards if and only if the item's own note is no
   checklist, or its untouched row happens to list the texts that will be live.
   */
  lemma ForeignNoteExact(t: Tables, m: Mutation, fts: Index, fts': Index, row: FtsRow)
    requires IndexAgrees(t, fts)
    requires m.entity.ItemEntity? && ItemContentField(m.field) && Effective(t, m) && ApplyOne(t, m).Ok?
    requires m.id.value in t.items && m.noteId.Some? && m.noteId.value != t.items[m.id.value].noteId
    requires row in fts && row.noteId == t.items[m.id.value].noteId
    requires IndexStep(t, m, ApplyOne(t, m).value, fts, fts')
    ensures IndexAgrees(ApplyOne(t, m).value, fts')
            <==> (t.notes[row.noteId].data.kind == "checklist" ==> IsLines(TextsAfter(t, m), row.content))
  {
    var t', n, other := ApplyOne(t, m).value, t.items[m.id.value].noteId, m.noteId.value;
    TextsAfterExact(t, m);
    ForeignTexts(t, m, other);
    DropRowsMembers(fts, other);
    assert row in fts';
    assert Agrees(t.notes[n].data, LiveTexts(t, n), row);
    if Agrees(t'.notes[n].data, LiveTexts(t', n), row) {
      forall r | r in fts && r.noteId != other
        ensures r.noteId in t'.notes && Agrees(t'.notes[r.noteId].data, LiveTexts(t', r.noteId), r)
      {
        if r.noteId != n {
          ForeignTexts(t, m, r.noteId);
        } else {
          OneRow(fts, r, row);
        }
      }
      RefreshCompletes(t, t', fts, other, fts');
    }
  }

  /** x is live and the only live item of its note. */
  predicate LiveItemIs(t: Tables, x: RowId) {
    && x in t.items && t.items[x].noteId in t.notes
    && LiveTexts(t, t.items[x].noteId).Keys == {x}
  }

  lemma SingleLine(live: map<RowId, string>, x: RowId, content: string)
    requires live.Keys == {x} && IsLines(live, content)
    ensures content == live[x]
  {
    var xs :| Enumerates(live, xs) && content == Join(Texts(live, xs));
    assert x in xs;
    var first, last := xs[0], xs[|xs| - 1];
    assert first in xs && last in xs;
    assert first in live.Keys && last in live.Keys;
    assert xs == [x];
  }

  lemma RetextedOnly(t: Tables, m: Mutation)
    requires m.entity.ItemEntity? && m.id.Some? && LiveItemIs(t, m.id.value) && m.field.Text? && m.value.JString?
    ensures TextsAfter(t, m) == map[m.id.value := m.value.s]
  {
    var x := m.id.value;
    assert x in LiveTexts(t, t.items[x].noteId).Keys;
    forall y | y in LiveTexts(t, t.items[x].noteId) ensures y == x {
      assert y in LiveTexts(t, t.items[x].noteId).Keys;
    }
  }

  /** So a new text for the sole live item of a checklist, sent under another note's name, leaves the old line. */
  lemma ForeignNoteLeavesIndexStale(t: Tables, m: Mutation, x: RowId, fts: Index, fts': Index)
    requires IndexAgrees(t, fts)
    requires LiveItemIs(t, x) && t.notes[t.items[x].noteId].data.kind == "checklist"
    requires m.entity.ItemEntity? && m.id == Some(x) && m.field.Text? && m.value.JString?
    requires m.noteId.Some? && m.noteId.value != t.items[x].noteId
    requires Effective(t, m) && m.value.s != t.items[x].data.text && ApplyOne(t, m).Ok?
    requires IndexStep(t, m, ApplyOne(t, m).value, fts, fts')
    ensures !IndexAgrees(ApplyOne(t, m).value, fts')
  {
    var row :| row in fts && row.noteId == t.items[x].noteId;
    SingleLine(LiveTexts(t, row.noteId), x, row.content);
    RetextedOnly(t, m);
    ForeignNoteExact(t, m, fts, fts', row);
    if IsLines(TextsAfter(t, m), row.content) {
      SingleLine(TextsAfter(t, m), x, row.content);
    }
  }
}
