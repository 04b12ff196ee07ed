/**
  The editing rules of the main window, stated on values: how the form is
  filled from a selection, how an edit of the form is written into a
  record's descriptor and its dirty flag, and what saving one record does.
  The classes in module Library perform these steps in place; their
  contracts are stated with the functions here.
 */
module Editing {
  import opened Wrappers
  import opened ComicInfo

  // ---------------------------------------------------------------------
  // The form view of a selection
  // ---------------------------------------------------------------------

  /** Every selected record reads the same value for `k`, absent as "". */
  predicate Agree(ms: seq<Meta>, k: string)
    requires |ms| > 0
  {
    forall i :: 0 <= i < |ms| ==> Get(ms[i], k) == Get(ms[0], k)
  }

  predicate AllEmpty(ms: seq<Meta>, k: string) {
    forall i :: 0 <= i < |ms| ==> Get(ms[i], k) == ""
  }

  /** The value the form shows for `k`: the common value, or else ""
      when every record reads "", or else the mixed-value marker. */
  function ViewValue(ms: seq<Meta>, k: string): string
    requires |ms| > 0
  {
    if Agree(ms, k) then Get(ms[0], k)
    else if AllEmpty(ms, k) then ""
    else Sentinel
  }

  /** `_common_meta` over a non-empty selection: one entry per form key. */
  function UnifiedView(ms: seq<Meta>): (view: Meta)
    requires |ms| > 0
    ensures view.Keys == set k | k in FieldKeys
  {
    map k | k in FieldKeys :: ViewValue(ms, k)
  }

  /** ViewValue computed from the list of values the loop of
      `_common_meta` collects. */
  lemma ViewValueFrom(ms: seq<Meta>, k: string, values: seq<string>)
    requires |ms| > 0 && |values| == |ms|
    requires forall t :: 0 <= t < |ms| ==> values[t] == Get(ms[t], k)
    ensures ViewValue(ms, k) ==
      if forall t :: 0 <= t < |values| ==> values[t] == values[0] then values[0]
      else if forall t :: 0 <= t < |values| ==> values[t] == "" then ""
      else Sentinel
  {
  }

  lemma UnifiedViewUnique(ms: seq<Meta>, view: Meta)
    requires |ms| > 0
    requires forall k :: k in view <==> k in FieldKeys
    requires forall k :: k in view ==> view[k] == ViewValue(ms, k)
    ensures view == UnifiedView(ms)
  {
  }

  /** The view holds the common value, "" included, when the records agree
      and the mixed-value marker when they do not: the middle case of
      `_common_meta` can never be taken. */
  lemma UnifiedViewValues(ms: seq<Meta>, k: string)
    requires |ms| > 0 && k in FieldKeys
    ensures UnifiedView(ms)[k] == if Agree(ms, k) then Get(ms[0], k) else Sentinel
    ensures Agree(ms, k) ==> forall i :: 0 <= i < |ms| ==> UnifiedView(ms)[k] == Get(ms[i], k)
  {
    if !Agree(ms, k) && AllEmpty(ms, k) {
      assert Agree(ms, k);
    }
  }

  /** A value other than the marker in the view is every record's value. */
  lemma UnifiedViewNotMixed(ms: seq<Meta>, k: string)
    requires |ms| > 0 && k in FieldKeys && UnifiedView(ms)[k] != Sentinel
    ensures forall i :: 0 <= i < |ms| ==> Get(ms[i], k) == UnifiedView(ms)[k]
  {
    UnifiedViewValues(ms, k);
  }

  /** A single selected record is shown as it is. */
  lemma UnifiedViewOfOne(m: Meta)
    ensures forall k :: k in FieldKeys ==> UnifiedView([m])[k] == Get(m, k)
  {
    forall k | k in FieldKeys
      ensures UnifiedView([m])[k] == Get(m, k)
    {
      UnifiedViewValues([m], k);
    }
  }

  /** The form after a selection change: the unified view, or all fields
      cleared when nothing is selected. */
  function FormFor(ms: seq<Meta>): (form: Meta)
    ensures form.Keys == set k | k in FieldKeys
    ensures ms == [] ==> forall k :: k in FieldKeys ==> form[k] == ""
  {
    if ms == [] then map k | k in FieldKeys :: "" else UnifiedView(ms)
  }

  // ---------------------------------------------------------------------
  // Field edits and the dirty flag
  // ---------------------------------------------------------------------

  /** An edit value that is written: anything but the mixed-value marker. */
  predicate Edits(cur: Meta, k: string) {
    k in cur && cur[k] != Sentinel
  }

  /** `on_field_changed` on one record's descriptor: every edited key whose
      value is not the marker is set, even to "", and no other key moves. */
  function ApplyEdits(m: Meta, cur: Meta): (r: Meta)
    ensures forall k :: Edits(cur, k) ==> k in r && r[k] == cur[k]
    ensures forall k :: !Edits(cur, k) ==> (k in r <==> k in m) && (k in m ==> r[k] == m[k])
  {
    map k | k in m.Keys + cur.Keys && (k in m || Edits(cur, k)) :: if Edits(cur, k) then cur[k] else m[k]
  }

  /** The dirty flag `on_field_changed` computes: some written edit differs
      from the saved value of its key. */
  predicate ChangedFrom(cur: Meta, saved: Meta) {
    exists k :: k in cur && cur[k] != Sentinel && cur[k] != Get(saved, k)
  }

  /** ApplyEdits is the only descriptor meeting its contract. */
  lemma ApplyEditsUnique(m: Meta, cur: Meta, r: Meta)
    requires forall k :: Edits(cur, k) ==> k in r && r[k] == cur[k]
    requires forall k :: !Edits(cur, k) ==> (k in r <==> k in m) && (k in m ==> r[k] == m[k])
    ensures r == ApplyEdits(m, cur)
  {
  }

  /** Applying the same edits twice gives the same descriptor. */
  lemma ApplyEditsIdempotent(m: Meta, cur: Meta)
    ensures ApplyEdits(ApplyEdits(m, cur), cur) == ApplyEdits(m, cur)
  {
  }

  /** Edits of the form touch only the keys they carry: Penciller and Inker,
      which the form does not show, keep the values they were loaded with. */
  lemma EditsKeepHiddenKeys(m: Meta, cur: Meta)
    requires cur.Keys == set k | k in FieldKeys
    ensures ApplyEdits(m, cur).Keys >= m.Keys
    ensures forall k :: k in m && k !in FieldKeys ==> ApplyEdits(m, cur)[k] == m[k]
  {
  }

  // ---------------------------------------------------------------------
  // Records
  // ---------------------------------------------------------------------

  /** The fields of one file entry. */
  datatype Record = Record(path: string, meta: Meta, savedMeta: Meta, hasComicInfo: bool, dirty: bool)

  /** A fresh entry for an archive whose descriptor was, or was not, read. */
  function Loaded(path: string, tree: Option<Element>): (r: Record)
    ensures !r.dirty && r.meta == r.savedMeta && r.hasComicInfo == tree.Some?
    ensures tree.None? ==> r.meta == map[]
  {
    match tree
    case None => Record(path, map[], map[], false, false)
    case Some(root) => var m := ParseMeta(root); Record(path, m, m, true, false)
  }

  /** One record's step of `on_field_changed`. */
  function Edited(r: Record, cur: Meta): (e: Record)
    ensures e.path == r.path && e.savedMeta == r.savedMeta && e.hasComicInfo == r.hasComicInfo
  {
    r.(meta := ApplyEdits(r.meta, cur), dirty := ChangedFrom(cur, r.savedMeta))
  }

  /** Applying the same form twice changes nothing more. */
  lemma EditedIdempotent(r: Record, cur: Meta)
    ensures Edited(Edited(r, cur), cur) == Edited(r, cur)
  {
    ApplyEditsIdempotent(r.meta, cur);
  }

  /** The descriptor that saving keeps as the saved one: the values that
      were written. */
  function Persisted(m: Meta): (p: Meta)
    ensures forall k :: k in p <==> k in m && Writable(m[k])
    ensures forall k :: k in p ==> p[k] == m[k]
  {
    map k | k in m && Writable(m[k]) :: m[k]
  }

  /** The saved descriptor reads, key by key, what was written, and it
      serialises to the very descriptor that was written. */
  lemma PersistedIsWritten(m: Meta)
    ensures forall k :: Get(Persisted(m), k) == Stored(m, k)
    ensures BuildXml(Persisted(m)) == BuildXml(m)
  {
    forall k ensures Stored(Persisted(m), k) == Stored(m, k) {
    }
    BuildXmlDeterminedByStored(Persisted(m), m);
  }

  /** One record's step of the save loops, given the writer's outcome: a
      clean record is skipped, a successful write makes the saved
      descriptor the written values and clears the flag, a failed write
      leaves the record as it was. */
  function Saved(r: Record, ok: bool): (s: Record)
    ensures s.path == r.path && s.meta == r.meta && s.hasComicInfo == r.hasComicInfo
    ensures !r.dirty || !ok ==> s == r
    ensures r.dirty && ok ==> !s.dirty
  {
    if r.dirty && ok then r.(savedMeta := Persisted(r.meta), dirty := false) else r
  }

  /** Whether saving the record writes its descriptor successfully: only a
      dirty record is written. */
  predicate WriteOk(r: Record, write: (string, Element) -> bool) {
    r.dirty && write(r.path, BuildXml(r.meta))
  }

  /** What its save step makes of a record. */
  function SaveWith(r: Record, write: (string, Element) -> bool): Record {
    Saved(r, WriteOk(r, write))
  }

  /** A record saved after an edit is clean, and typing the same values
      again leaves it clean with the same descriptor. */
  lemma SavedThenSameEditsClean(r0: Record, cur: Meta)
    requires Edited(r0, cur).dirty
    ensures var s := Saved(Edited(r0, cur), true);
      && !s.dirty
      && Edited(s, cur) == s
  {
    var e := Edited(r0, cur);
    var s := Saved(e, true);
    if ChangedFrom(cur, s.savedMeta) {
      var k :| Edits(cur, k) && cur[k] != Get(s.savedMeta, k);
      PersistedIsWritten(e.meta);
      assert false;
    }
    ApplyEditsIdempotent(r0.meta, cur);
  }

  /** Under the conditions of DirtyIffDescriptorChanges, one key's stored
      values agree exactly when its edit equals its saved value. */
  lemma StoredAgreesAt(m: Meta, cur: Meta, saved: Meta, k: string)
    requires k in cur && cur[k] != Sentinel && k in m && m[k] == cur[k]
    requires k in saved ==> saved[k] != Sentinel
    ensures (Stored(m, k) == Stored(saved, k)) == (cur[k] == Get(saved, k))
  {
  }

  /** When the form shows no mixed-value marker and the saved descriptor
      holds none either, the dirty flag says exactly whether saving would
      write a descriptor different from the saved one. */
  lemma DirtyIffDescriptorChanges(r: Record, cur: Meta)
    requires cur.Keys == set k | k in FieldKeys
    requires forall k :: k in cur ==> cur[k] != Sentinel
    requires forall k :: k in r.savedMeta ==> r.savedMeta[k] != Sentinel
    ensures Edited(r, cur).dirty <==> BuildXml(Edited(r, cur).meta) != BuildXml(r.savedMeta)
  {
    var m := Edited(r, cur).meta;
    var saved := r.savedMeta;
    BuildXmlDeterminedByStored(m, saved);
    if Edited(r, cur).dirty {
      var k :| k in cur && cur[k] != Sentinel && cur[k] != Get(saved, k);
      assert k in cur.Keys;
      StoredAgreesAt(m, cur, saved, k);
      assert k in FieldKeys && Stored(m, k) != Stored(saved, k);
    } else {
      forall k | k in FieldKeys
        ensures Stored(m, k) == Stored(saved, k)
      {
        assert k in cur.Keys;
        StoredAgreesAt(m, cur, saved, k);
      }
    }
  }

  /** The flag looks only at the keys being edited: a record carrying an
      unsaved value for Series is marked clean by a later edit of the whole
      form made while Series showed the marker and every other field held
      its saved (empty) value.  Saving the list then skips the record and the
      Series value is never written. */
  lemma CleanFlagCanHideAnEdit()
    ensures var r := Record("a.cbz", map["Series" := "X"], map["Series" := "S"], true, true);
      var cur := map["SeriesGroup" := "", "Series" := Sentinel, "Title" := "", "Volume" := "", "Number" := "",
          "Year" := "", "Month" := "", "Day" := "", "Author" := ""];
      var e := Edited(r, cur);
      && !e.dirty
      && BuildXml(e.meta) != BuildXml(e.savedMeta)
      && SaveWith(e, (p, x) => true) == e
  {
    var r := Record("a.cbz", map["Series" := "X"], map["Series" := "S"], true, true);
    var cur := map["SeriesGroup" := "", "Series" := Sentinel, "Title" := "", "Volume" := "", "Number" := "",
        "Year" := "", "Month" := "", "Day" := "", "Author" := ""];
    var e := Edited(r, cur);
    assert !ChangedFrom(cur, r.savedMeta);
    assert e.meta["Series"] == "X";
    assert Stored(e.meta, "Series") == "X" by {
      assert Get(e.meta, "Series") == "X";
      assert "X" != Sentinel;
    }
    assert Stored(e.savedMeta, "Series") == "S" by {
      assert e.savedMeta == map["Series" := "S"];
      assert "S" != Sentinel;
    }
    BuildXmlDeterminedByStored(e.meta, e.savedMeta);
    assert "Series" in FieldKeys;
  }

  /** Reopening a file after a successful save shows, in every form field,
      the saved descriptor's value. */
  lemma SaveThenReload(r: Record, path: string)
    requires r.dirty
    ensures var s := Saved(r, true);
      var back := Loaded(path, Some(BuildXml(s.meta)));
      forall k :: k in FieldKeys ==> Get(back.meta, k) == Get(s.savedMeta, k)
  {
    RoundTrip(r.meta);
    PersistedIsWritten(r.meta);
  }

  // ---------------------------------------------------------------------
  // The save loops
  // ---------------------------------------------------------------------

  /** Positions in strictly increasing order, each naming a record: what
      `sorted(rows)` gives for a table selection. */
  predicate Selection(rs: seq<Record>, sel: seq<nat>) {
    (forall a, b :: 0 <= a < b < |sel| ==> sel[a] < sel[b]) && (forall a :: 0 <= a < |sel| ==> sel[a] < |rs|)
  }

  /** The row numbers name records. */
  predicate InRange(rs: seq<Record>, sel: seq<nat>) {
    forall a :: 0 <= a < |sel| ==> sel[a] < |rs|
  }

  /** The first `n` selected positions whose records are dirty, in selection
      order: the records the save loops write. */
  function DirtyAmong(rs: seq<Record>, sel: seq<nat>, n: nat): seq<nat>
    requires n <= |sel| && InRange(rs, sel)
  {
    if n == 0 then []
    else if rs[sel[n - 1]].dirty then DirtyAmong(rs, sel, n - 1) + [sel[n - 1]]
    else DirtyAmong(rs, sel, n - 1)
  }

  /** Exactly the dirty selected records are written, each once, in list
      order. */
  lemma {:induction false} DirtyAmongOrder(rs: seq<Record>, sel: seq<nat>, n: nat)
    requires n <= |sel| && Selection(rs, sel)
    ensures var ps := DirtyAmong(rs, sel, n);
      && (forall a, b :: 0 <= a < b < |ps| ==> ps[a] < ps[b])
      && (forall i :: i in ps <==> i in sel[..n] && rs[i].dirty)
      && (forall a :: 0 <= a < |ps| ==> n > 0 && ps[a] <= sel[n - 1])
  {
    if n > 0 {
      DirtyAmongOrder(rs, sel, n - 1);
      assert sel[..n] == sel[..n - 1] + [sel[n - 1]];
      var init := DirtyAmong(rs, sel, n - 1);
      if n > 1 {
        assert sel[n - 2] < sel[n - 1];
      }
      forall a | 0 <= a < |init|
        ensures init[a] < sel[n - 1]
      {
        assert n > 1 && init[a] <= sel[n - 2];
      }
    }
  }

  /** Whether the form leaves one of the first `n` selected records dirty. */
  function SomeLeftDirty(rs: seq<Record>, sel: seq<nat>, n: nat, cur: Meta): bool
    requires n <= |sel| && InRange(rs, sel)
  {
    n > 0 && (SomeLeftDirty(rs, sel, n - 1, cur) || Edited(rs[sel[n - 1]], cur).dirty)
  }

  /** Whether the form changes the flag of one of the first `n` selected
      records. */
  function SomeFlagFlipped(rs: seq<Record>, sel: seq<nat>, n: nat, cur: Meta): bool
    requires n <= |sel| && InRange(rs, sel)
  {
    n > 0 && (SomeFlagFlipped(rs, sel, n - 1, cur) || Edited(rs[sel[n - 1]], cur).dirty != rs[sel[n - 1]].dirty)
  }

  lemma {:induction false} SomeLeftDirtyMeans(rs: seq<Record>, sel: seq<nat>, n: nat, cur: Meta)
    requires n <= |sel| && InRange(rs, sel)
    ensures SomeLeftDirty(rs, sel, n, cur) <==> exists a :: 0 <= a < n && Edited(rs[sel[a]], cur).dirty
    ensures SomeFlagFlipped(rs, sel, n, cur) <==>
      exists a :: 0 <= a < n && Edited(rs[sel[a]], cur).dirty != rs[sel[a]].dirty
  {
    if n > 0 {
      SomeLeftDirtyMeans(rs, sel, n - 1, cur);
    }
  }

  /** Whether one of the first `n` selected records is written successfully. */
  function SomeSaved(rs: seq<Record>, sel: seq<nat>, n: nat, write: (string, Element) -> bool): bool
    requires n <= |sel| && InRange(rs, sel)
  {
    n > 0 && (SomeSaved(rs, sel, n - 1, write) || WriteOk(rs[sel[n - 1]], write))
  }

  lemma {:induction false} SomeSavedMeans(rs: seq<Record>, sel: seq<nat>, n: nat, write: (string, Element) -> bool)
    requires n <= |sel| && InRange(rs, sel)
    ensures SomeSaved(rs, sel, n, write) <==> exists a :: 0 <= a < n && WriteOk(rs[sel[a]], write)
  {
    if n > 0 {
      SomeSavedMeans(rs, sel, n - 1, write);
    }
  }

  /** The positions 0, 1, ..., n - 1. */
  function Upto(n: nat): (r: seq<nat>)
    ensures |r| == n && forall a :: 0 <= a < n ==> r[a] == a
  {
    if n == 0 then [] else Upto(n - 1) + [n - 1]
  }

  /** Each dirty record is saved or left as it was independently of the
      others: a failed write of one record changes nothing about another. */
  lemma SaveIsolated(rs: seq<Record>, write: (string, Element) -> bool, i: nat)
    requires i < |rs|
    ensures !write(rs[i].path, BuildXml(rs[i].meta)) ==> SaveWith(rs[i], write) == rs[i]
    ensures write(rs[i].path, BuildXml(rs[i].meta)) && rs[i].dirty ==>
      SaveWith(rs[i], write).savedMeta == Persisted(rs[i].meta) && !SaveWith(rs[i], write).dirty
  {
  }
}
