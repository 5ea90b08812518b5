/** The mirror of the server's checks under its two writers, server sync and
    local import: which of them each column of a row comes from, over any run. */
module Mirror {
  import opened Base
  import opened Checks
  import opened Tables

  predicate WritesContent(w: Write) {
    w.Import? || (w.Upsert? && BearsContent(w.check))
  }

  function ContentOf(w: Write): Content
    requires !w.Remove?
  {
    if w.Import? then ImportedContent(w.check.content) else w.check.content
  }

  function MetaOf(w: Write): Meta
    requires !w.Remove?
  {
    if w.Import? then SeedMeta(w.check.meta) else w.check.meta
  }

  /** The writes to one guid since its last removal. */
  function Since(ws: seq<Write>, g: Bytes): (s: seq<Write>)
    ensures forall w :: w in s ==> !w.Remove? && Target(w) == g && w in ws
  {
    if ws == [] then []
    else
      var w := ws[|ws| - 1];
      var front := Since(ws[..|ws| - 1], g);
      if Target(w) != g then front
      else if w.Remove? then []
      else front + [w]
  }

  predicate Removed(ws: seq<Write>, g: Bytes) {
    Remove(g) in ws
  }

  /** The row those writes started from. */
  function Basis(checks: CheckTable, ws: seq<Write>, g: Bytes): Option<CheckRow> {
    if Removed(ws, g) then None else RowOf(checks, g)
  }

  /** Write i is the last one to carry content; the insert of a row always does. */
  predicate LastContentWriter(s: seq<Write>, basis: Option<CheckRow>, i: int) {
    && 0 <= i < |s|
    && (WritesContent(s[i]) || (i == 0 && basis.None?))
    && forall j :: i < j < |s| ==> !WritesContent(s[j])
  }

  /** Write i is the last one to carry metadata: a sync, or the seeding insert. */
  predicate LastMetaWriter(s: seq<Write>, basis: Option<CheckRow>, i: int) {
    && 0 <= i < |s|
    && (s[i].Upsert? || (i == 0 && basis.None?))
    && forall j :: i < j < |s| ==> !s[j].Upsert?
  }

  /** The content columns and the flag are those write i brought. */
  predicate ContentFrom(s: seq<Write>, basis: Option<CheckRow>, row: CheckRow, i: int)
    requires forall w :: w in s ==> !w.Remove?
  {
    LastContentWriter(s, basis, i) && row.content == ContentOf(s[i]) && (row.locallyDefined <==> s[i].Import?)
  }

  /** The content columns and `locally_defined` come from the last content writer. */
  ghost predicate ContentProvenance(s: seq<Write>, basis: Option<CheckRow>, row: CheckRow)
    requires forall w :: w in s ==> !w.Remove?
  {
    || (exists i :: ContentFrom(s, basis, row, i))
    || (basis.Some? && (forall w :: w in s ==> !WritesContent(w))
        && row.content == basis.value.content && row.locallyDefined == basis.value.locallyDefined)
  }

  ghost predicate MetaProvenance(s: seq<Write>, basis: Option<CheckRow>, row: CheckRow)
    requires forall w :: w in s ==> !w.Remove?
  {
    || (exists i :: LastMetaWriter(s, basis, i) && row.meta == MetaOf(s[i]))
    || (basis.Some? && (forall w :: w in s ==> !w.Upsert?) && row.meta == basis.value.meta)
  }

  function StepRow(row: Option<CheckRow>, w: Write, newId: int): Option<CheckRow> {
    match w
    case Upsert(c) => Some(SyncRow(row, c, newId))
    case Import(c) => Some(ImportRow(row, c, newId))
    case Remove(_) => None
  }

  lemma RowStep(checks: CheckTable, w: Write, g: Bytes)
    ensures RowOf(ApplyWrite(checks, w), g) ==
      if Target(w) == g then StepRow(RowOf(checks, g), w, NewId(checks)) else RowOf(checks, g)
  {
  }

  /** Where a row comes from, given the writes since its basis. */
  ghost predicate ComesFrom(row: Option<CheckRow>, s: seq<Write>, basis: Option<CheckRow>)
    requires forall w :: w in s ==> !w.Remove?
  {
    && (row.Some? <==> s != [] || basis.Some?)
    && (row.Some? ==> ContentProvenance(s, basis, row.value) && MetaProvenance(s, basis, row.value))
  }

  lemma ExtendContent(s: seq<Write>, basis: Option<CheckRow>, row: CheckRow, w: Write, newId: int)
    requires !w.Remove? && forall x :: x in s ==> !x.Remove?
    requires ContentProvenance(s, basis, row)
    ensures ContentProvenance(s + [w], basis, StepRow(Some(row), w, newId).value)
  {
    var t := s + [w];
    var next := StepRow(Some(row), w, newId).value;
    if WritesContent(w) {
      assert ContentFrom(t, basis, next, |s|);
    } else if exists i :: ContentFrom(s, basis, row, i) {
      var i :| ContentFrom(s, basis, row, i);
      assert t[i] == s[i];
      assert ContentFrom(t, basis, next, i);
    }
  }

  lemma ExtendMeta(s: seq<Write>, basis: Option<CheckRow>, row: CheckRow, w: Write, newId: int)
    requires !w.Remove? && forall x :: x in s ==> !x.Remove?
    requires MetaProvenance(s, basis, row)
    ensures MetaProvenance(s + [w], basis, StepRow(Some(row), w, newId).value)
  {
    var t := s + [w];
    if w.Upsert? {
      assert LastMetaWriter(t, basis, |s|);
    } else if exists i :: LastMetaWriter(s, basis, i) && row.meta == MetaOf(s[i]) {
      var i :| LastMetaWriter(s, basis, i) && row.meta == MetaOf(s[i]);
      assert t[i] == s[i];
      assert LastMetaWriter(t, basis, i);
    }
  }

  lemma ExtendProvenance(row: Option<CheckRow>, s: seq<Write>, basis: Option<CheckRow>, w: Write, newId: int)
    requires !w.Remove? && forall x :: x in s ==> !x.Remove?
    requires ComesFrom(row, s, basis)
    ensures ComesFrom(StepRow(row, w, newId), s + [w], basis)
  {
    if row.Some? {
      ExtendContent(s, basis, row.value, w, newId);
      ExtendMeta(s, basis, row.value, w, newId);
    } else {
      assert ContentFrom(s + [w], None, StepRow(None, w, newId).value, 0);
      assert LastMetaWriter(s + [w], None, 0);
    }
  }

  /** Over any run of syncs, imports and removals, from any table: a guid has a
      row exactly when it was written since its last removal (or was there and
      never removed); the row's content and its `locally_defined` flag come from
      the last write that carried content, its metadata from the last sync or
      the seeding insert. */
  lemma {:induction false} Provenance(checks: CheckTable, ws: seq<Write>, g: Bytes)
    ensures ComesFrom(RowOf(ApplyWrites(checks, ws), g), Since(ws, g), Basis(checks, ws, g))
  {
    if ws != [] {
      var w, front := ws[|ws| - 1], ws[..|ws| - 1];
      Provenance(checks, front, g);
      assert ws == front + [w];
      var before := ApplyWrites(checks, front);
      RowStep(before, w, g);
      if Target(w) == g && !w.Remove? {
        ExtendProvenance(RowOf(before, g), Since(front, g), Basis(checks, front, g), w, NewId(before));
      }
    }
  }

  // ----- Imports and content-less syncs commute -----

  /** Only imports and url-less, non-delete syncs touch this guid. */
  predicate OnlyImportsAndBareSyncs(ws: seq<Write>, g: Bytes) {
    forall w :: w in ws && Target(w) == g ==> w.Import? || (w.Upsert? && !BearsContent(w.check))
  }

  predicate LastImport(ws: seq<Write>, g: Bytes, i: int) {
    && 0 <= i < |ws| && ws[i].Import? && Target(ws[i]) == g
    && forall j :: i < j < |ws| && Target(ws[j]) == g ==> !ws[j].Import?
  }

  predicate LastSync(ws: seq<Write>, g: Bytes, k: int) {
    && 0 <= k < |ws| && ws[k].Upsert? && Target(ws[k]) == g
    && forall j :: k < j < |ws| && Target(ws[j]) == g ==> !ws[j].Upsert?
  }

  lemma {:induction false} AfterLastImport(checks: CheckTable, ws: seq<Write>, g: Bytes, i: int)
    requires OnlyImportsAndBareSyncs(ws, g) && LastImport(ws, g, i)
    ensures
      var row := RowOf(ApplyWrites(checks, ws), g);
      row.Some? && row.value.content == ImportedContent(ws[i].check.content) && row.value.locallyDefined
    decreases |ws|
  {
    var n := |ws| - 1;
    if i < n {
      assert ws[n] in ws;
      AfterLastImport(checks, ws[..n], g, i);
      RowStep(ApplyWrites(checks, ws[..n]), ws[n], g);
    }
  }

  lemma {:induction false} AfterLastSync(checks: CheckTable, ws: seq<Write>, g: Bytes, k: int)
    requires OnlyImportsAndBareSyncs(ws, g) && LastSync(ws, g, k)
    ensures
      var row := RowOf(ApplyWrites(checks, ws), g);
      row.Some? && row.value.meta == ws[k].check.meta
    decreases |ws|
  {
    var n := |ws| - 1;
    if k < n {
      assert ws[n] in ws;
      AfterLastSync(checks, ws[..n], g, k);
    }
  }

  lemma {:induction false} RowIdKept(checks: CheckTable, ws: seq<Write>, g: Bytes)
    requires OnlyImportsAndBareSyncs(ws, g) && forall w :: w in ws ==> Target(w) == g
    ensures ws == [] ==> ApplyWrites(checks, ws) == checks
    ensures ws != [] ==>
      var row := RowOf(ApplyWrites(checks, ws), g);
      row.Some? && row.value.id == if g in checks then checks[g].id else NewId(checks)
  {
    if ws != [] {
      var n := |ws| - 1;
      assert ws[n] in ws;
      RowIdKept(checks, ws[..n], g);
    }
  }

  /** From any mirror, with the row there or not: every interleaving of imports and
      url-less syncs of a guid, with at least one of each, ends in the one row
      fixed by the last import's content and the last sync's metadata. */
  lemma ImportsAndBareSyncsCommute(checks: CheckTable, ws: seq<Write>, g: Bytes, i: int, k: int)
    requires OnlyImportsAndBareSyncs(ws, g) && forall w :: w in ws ==> Target(w) == g
    requires LastImport(ws, g, i) && LastSync(ws, g, k)
    ensures RowOf(ApplyWrites(checks, ws), g) == Some(
      CheckRow(if g in checks then checks[g].id else NewId(checks),
               ImportedContent(ws[i].check.content), ws[k].check.meta, true))
  {
    AfterLastImport(checks, ws, g, i);
    AfterLastSync(checks, ws, g, k);
    RowIdKept(checks, ws, g);
  }

  /** Writes to other guids do not touch a row. */
  lemma {:induction false} OthersUntouched(checks: CheckTable, ws: seq<Write>, g: Bytes)
    requires forall w :: w in ws ==> Target(w) != g
    ensures RowOf(ApplyWrites(checks, ws), g) == RowOf(checks, g)
  {
    if ws != [] {
      assert ws[|ws| - 1] in ws;
      OthersUntouched(checks, ws[..|ws| - 1], g);
    }
  }
}
