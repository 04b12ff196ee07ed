/**
  The record list of the main window: the file entries it holds and the
  steps that change them in place — loading paths, editing the form over a
  selection, saving, and renaming.  Table rows are positions in the list;
  a selection arrives as the sorted row numbers the table reports.
 */
module Library {
  import opened Wrappers
  import opened NaturalSort
  import opened ComicInfo
  import opened Archive
  import opened Editing

  /** `FileItem`: one archive in the list, updated in place. */
  class FileItem {
    var path: string
    var meta: Meta
    var savedMeta: Meta
    var hasComicInfo: bool
    var dirty: bool

    constructor (p: string)
      ensures path == p && meta == map[] && savedMeta == map[] && !hasComicInfo && !dirty
    {
      path := p;
      meta := map[];
      savedMeta := map[];
      hasComicInfo := false;
      dirty := false;
    }

    /** The body of `on_field_changed`'s loop for this entry: every written
        edit is stored in `meta`, and the flag is recomputed against the
        saved descriptor; `flipped` says whether the flag changed. */
    method ApplyForm(cur: Meta) returns (changed: bool, flipped: bool)
      modifies this
      ensures Snap(this) == Edited(old(Snap(this)), cur)
      ensures changed == ChangedFrom(cur, old(savedMeta))
      ensures flipped == (old(dirty) != changed)
    {
      var m := meta;
      var saved := savedMeta;
      changed := false;
      var todo := cur.Keys;
      ghost var done: set<string> := {};
      while todo != {}
        invariant todo + done == cur.Keys && todo !! done
        invariant forall k :: k in done && Edits(cur, k) ==> k in m && m[k] == cur[k]
        invariant forall k :: !(k in done && Edits(cur, k)) ==> (k in m <==> k in meta) && (k in m ==> m[k] == meta[k])
        invariant changed == exists k :: k in done && cur[k] != Sentinel && cur[k] != Get(saved, k)
        decreases todo
      {
        var k :| k in todo;
        var v := cur[k];
        todo := todo - {k};
        done := done + {k};
        if v == Sentinel {
          continue;
        }
        var was := Get(saved, k);
        m := m[k := v];
        if v != was {
          changed := true;
        }
      }
      ApplyEditsUnique(meta, cur, m);
      meta := m;
      flipped := dirty != changed;
      if flipped {
        dirty := changed;
      }
    }

    /** The body of the save loops for this entry: a clean entry is skipped;
        otherwise the descriptor is serialised and handed to the writer,
        and on success the written values become the saved descriptor. */
    method Save(write: (string, Element) -> bool) returns (written: bool, ok: bool)
      modifies this
      ensures Snap(this) == SaveWith(old(Snap(this)), write)
      ensures written == old(dirty)
      ensures ok == WriteOk(old(Snap(this)), write)
    {
      written, ok := false, false;
      if !dirty {
        return;
      }
      written := true;
      var root := BuildXml(meta);
      ok := write(path, root);
      if ok {
        savedMeta := Persisted(meta);
        dirty := false;
      }
    }
  }

  /** The fields of an entry as a value. */
  function Snap(fi: FileItem): Record
    reads fi
  {
    Record(fi.path, fi.meta, fi.savedMeta, fi.hasComicInfo, fi.dirty)
  }

  function Snaps(fs: seq<FileItem>): (rs: seq<Record>)
    reads fs
    ensures |rs| == |fs| && forall i :: 0 <= i < |fs| ==> rs[i] == Snap(fs[i])
  {
    if fs == [] then [] else [Snap(fs[0])] + Snaps(fs[1..])
  }

  function Paths(fs: seq<FileItem>): (ps: seq<string>)
    reads fs
    ensures |ps| == |fs| && forall i :: 0 <= i < |fs| ==> ps[i] == fs[i].path
  {
    if fs == [] then [] else [fs[0].path] + Paths(fs[1..])
  }

  function Metas(fs: seq<FileItem>): (ms: seq<Meta>)
    reads fs
    ensures |ms| == |fs| && forall i :: 0 <= i < |fs| ==> ms[i] == fs[i].meta
  {
    if fs == [] then [] else [fs[0].meta] + Metas(fs[1..])
  }

  /** `Path.name`: what follows the last '/'. */
  function BaseName(p: string): string {
    if p == [] || p[|p| - 1] == '/' then [] else BaseName(p[..|p| - 1]) + [p[|p| - 1]]
  }

  /** The name is the longest suffix of the path that holds no '/'. */
  lemma {:induction false} BaseNameSuffix(p: string)
    ensures |BaseName(p)| <= |p| && BaseName(p) == p[|p| - |BaseName(p)|..]
    ensures forall i :: 0 <= i < |BaseName(p)| ==> BaseName(p)[i] != '/'
    ensures |BaseName(p)| < |p| ==> p[|p| - |BaseName(p)| - 1] == '/'
  {
    if p != [] && p[|p| - 1] != '/' {
      var q, c := p[..|p| - 1], p[|p| - 1];
      BaseNameSuffix(q);
      var m := BaseName(q);
      assert BaseName(p) == m + [c];
      assert m == p[|p| - 1 - |m|..|p| - 1];
      assert p[|p| - 1 - |m|..] == p[|p| - 1 - |m|..|p| - 1] + [c];
    }
  }

  /** The sort key of an entry with path `p`: `natural_key(p.name)`. */
  function PathKey(p: string): Key {
    NaturalKey(BaseName(p))
  }

  function PathKeys(ps: seq<string>): (ks: seq<Key>)
    ensures |ks| == |ps|
  {
    if ps == [] then [] else [PathKey(ps[0])] + PathKeys(ps[1..])
  }

  lemma {:induction false} PathKeysAt(ps: seq<string>, i: nat)
    requires i < |ps|
    ensures PathKeys(ps)[i] == PathKey(ps[i])
  {
    if i > 0 {
      PathKeysAt(ps[1..], i - 1);
    }
  }

  /** A record whose path is, or is not, replaced by `p`. */
  function Retargeted(r: Record, hit: bool, p: string): Record {
    if hit then r.(path := p) else r
  }

  /** A record after the edit loop has, or has not yet, reached it. */
  function EditedIf(r: Record, reached: bool, cur: Meta): Record {
    if reached then Edited(r, cur) else r
  }

  /** A record after the save loop has, or has not yet, reached it. */
  function SavedIf(r: Record, reached: bool, write: (string, Element) -> bool): Record {
    if reached then SaveWith(r, write) else r
  }

  lemma PrefixPush<T>(s: seq<T>, t: nat)
    requires t < |s|
    ensures s[..t + 1] == s[..t] + [s[t]]
  {
  }

  /** The paths `load_paths` adds to a list holding `existing`, in order:
      a path is skipped when the list, grown so far, already holds it. */
  function NewPaths(existing: seq<string>, paths: seq<string>): seq<string> {
    if paths == [] then []
    else
      var init := NewPaths(existing, paths[..|paths| - 1]);
      var p := paths[|paths| - 1];
      if p in existing || p in init then init else init + [p]
  }

  /** One more offered path: it is added unless already listed. */
  lemma NewPathsStep(existing: seq<string>, paths: seq<string>, i: nat, acc: seq<string>)
    requires i < |paths| && acc == NewPaths(existing, paths[..i])
    ensures NewPaths(existing, paths[..i + 1]) ==
      if paths[i] in existing || paths[i] in acc then acc else acc + [paths[i]]
  {
    assert paths[..i + 1][..i] == paths[..i];
  }

  /** `load_paths` never adds a path already in the list and never adds a
      path twice, and every path offered ends up in the list. */
  lemma {:induction false} NewPathsFresh(existing: seq<string>, paths: seq<string>)
    ensures var added := NewPaths(existing, paths);
      && Distinct(added)
      && (forall p :: p in added ==> p !in existing && p in paths)
      && (forall p :: p in paths ==> p in existing || p in added)
      && (Distinct(existing) ==> Distinct(existing + added))
  {
    if paths != [] {
      var init := paths[..|paths| - 1];
      NewPathsFresh(existing, init);
      assert paths == init + [paths[|paths| - 1]];
      var added := NewPaths(existing, paths);
      if Distinct(existing) {
        var all := existing + added;
        forall i, j | 0 <= i < j < |all|
          ensures all[i] != all[j]
        {
          if i >= |existing| {
            assert all[i] == added[i - |existing|] && all[j] == added[j - |existing|];
          } else if j >= |existing| {
            assert all[j] == added[j - |existing|];
            assert all[j] in added;
          }
        }
      }
    }
  }

  /** What the list needs of `NewPaths`: the added paths are distinct and
      distinct from the listed ones. */
  lemma NewPathsDistinct(existing: seq<string>, paths: seq<string>)
    ensures Distinct(NewPaths(existing, paths))
    ensures Distinct(existing) ==> Distinct(existing + NewPaths(existing, paths))
  {
    NewPathsFresh(existing, paths);
  }

  /** The list after `load_paths`' first loop: its paths are the listed
      ones then the new ones, no new entry is listed twice, and distinct
      paths stay distinct. */
  lemma Extended(fs: seq<FileItem>, added: seq<FileItem>, listed: seq<string>, paths: seq<string>)
    requires Paths(fs) == listed && Paths(added) == NewPaths(listed, paths)
    ensures Distinct(added)
    ensures Distinct(listed) ==> Distinct(Paths(fs + added))
  {
    NewPathsDistinct(listed, paths);
    PathsAppend(fs, added);
    DistinctByPath(added);
  }

  /** Entries with distinct paths are distinct entries. */
  lemma DistinctByPath(fs: seq<FileItem>)
    requires Distinct(Paths(fs))
    ensures Distinct(fs)
  {
    var ps := Paths(fs);
    forall i, j | 0 <= i < j < |fs|
      ensures fs[i] != fs[j]
    {
      assert ps[i] != ps[j];
    }
  }

  lemma DistinctAppend<T>(xs: seq<T>, ys: seq<T>)
    requires Distinct(xs) && Distinct(ys)
    requires forall i, j :: 0 <= i < |xs| && 0 <= j < |ys| ==> xs[i] != ys[j]
    ensures Distinct(xs + ys)
  {
    var zs := xs + ys;
    forall i, j | 0 <= i < j < |zs|
      ensures zs[i] != zs[j]
    {
      if j < |xs| {
        assert zs[i] == xs[i] && zs[j] == xs[j];
      } else if i < |xs| {
        assert zs[i] == xs[i] && zs[j] == ys[j - |xs|];
      } else {
        assert zs[i] == ys[i - |xs|] && zs[j] == ys[j - |xs|];
      }
    }
  }

  /** The outcome of a rename typed into the table. */
  datatype RenameOutcome = Unchanged | Conflict | Failed | Renamed

  /** The first position holding exactly this path. */
  function IndexOf(ps: seq<string>, p: string): (r: Option<nat>)
    ensures r.None? ==> forall i :: 0 <= i < |ps| ==> ps[i] != p
    ensures r.Some? ==> r.value < |ps| && ps[r.value] == p && forall j :: 0 <= j < r.value ==> ps[j] != p
  {
    if ps == [] then None
    else if ps[0] == p then Some(0)
    else match IndexOf(ps[1..], p)
      case None => None
      case Some(i) => Some(i + 1)
  }

  /** Sorting the entries by their name keys: the keys of the result are
      the sorted keys, and distinct paths stay distinct. */
  lemma SortedEntries(fs: seq<FileItem>, keys: seq<Key>, ys: seq<FileItem>, ls: seq<Key>, perm: seq<nat>)
    requires keys == PathKeys(Paths(fs)) && Tracks(fs, keys, ys, ls, perm)
    ensures PathKeys(Paths(ys)) == ls
    ensures Distinct(Paths(fs)) ==> Distinct(Paths(ys))
  {
    var ks := PathKeys(Paths(ys));
    forall a | 0 <= a < |ys|
      ensures ks[a] == ls[a]
    {
      assert ys[a] == fs[perm[a]];
      PathKeysAt(Paths(ys), a);
      PathKeysAt(Paths(fs), perm[a]);
    }
    SortedPaths(fs, ys, perm);
  }

  lemma SortedPaths(fs: seq<FileItem>, ys: seq<FileItem>, perm: seq<nat>)
    requires |ys| == |perm| && Distinct(perm)
    requires forall a :: 0 <= a < |perm| ==> perm[a] < |fs| && ys[a] == fs[perm[a]]
    ensures Distinct(Paths(fs)) ==> Distinct(Paths(ys))
  {
    var ps, qs := Paths(fs), Paths(ys);
    forall a | 0 <= a < |ys|
      ensures qs[a] == ps[perm[a]]
    {
    }
    PermutedDistinct(ps, qs, perm);
  }

  /** The key function applied to every entry, once each. */
  method NameKeysOf(fs: seq<FileItem>) returns (keys: seq<Key>)
    ensures keys == PathKeys(Paths(fs))
  {
    keys := [];
    for k := 0 to |fs|
      invariant |keys| == k && forall a :: 0 <= a < k ==> keys[a] == PathKey(fs[a].path)
    {
      var key := NaturalKeyOf(BaseName(fs[k].path));
      keys := keys + [key];
    }
    forall a | 0 <= a < |fs|
      ensures keys[a] == PathKeys(Paths(fs))[a]
    {
      PathKeysAt(Paths(fs), a);
    }
  }

  /** The entries sorted by the natural order of their file names: the key
      of every entry is computed once, then the entries are sorted by key.
      The sort is stable: entries whose names have the same key keep their
      relative order. */
  method SortedByName(fs: seq<FileItem>) returns (ys: seq<FileItem>)
    ensures multiset(ys) == multiset(fs)
    ensures SortedKeys(PathKeys(Paths(ys)))
    ensures SameWithinKeys(ys, PathKeys(Paths(ys)), fs, PathKeys(Paths(fs)))
    ensures Distinct(fs) ==> Distinct(ys)
    ensures Distinct(Paths(fs)) ==> Distinct(Paths(ys))
  {
    var keys := NameKeysOf(fs);
    var sortedKeys;
    ghost var perm;
    ys, sortedKeys, perm := SortByKey(fs, keys);
    SortedEntries(fs, keys, ys, sortedKeys, perm);
    PermutedDistinct(fs, ys, perm);
  }

  lemma SnapsPush(fs: seq<FileItem>, x: FileItem)
    ensures Snaps(fs + [x]) == Snaps(fs) + [Snap(x)]
  {
    var l, r := Snaps(fs + [x]), Snaps(fs) + [Snap(x)];
    forall i | 0 <= i < |l|
      ensures l[i] == r[i]
    {
      if i < |fs| {
        assert (fs + [x])[i] == fs[i];
      }
    }
  }

  /** The records `load_paths` makes for paths not yet listed, in order. */
  function LoadedAll(ps: seq<string>, disk: string -> Option<seq<Entry>>, parseXml: Bytes -> Option<Element>): (rs: seq<Record>)
    ensures |rs| == |ps|
  {
    if ps == [] then []
    else LoadedAll(ps[..|ps| - 1], disk, parseXml) + [Loaded(ps[|ps| - 1], ReadComicInfo(disk(ps[|ps| - 1]), parseXml))]
  }

  lemma LoadedAllPush(ps: seq<string>, p: string, disk: string -> Option<seq<Entry>>, parseXml: Bytes -> Option<Element>)
    ensures LoadedAll(ps + [p], disk, parseXml) == LoadedAll(ps, disk, parseXml) + [Loaded(p, ReadComicInfo(disk(p), parseXml))]
  {
    assert (ps + [p])[..|ps|] == ps;
  }

  /** The records made for `ps` hold the paths `ps`. */
  lemma LoadedAllPaths(rs: seq<Record>, ps: seq<string>, disk: string -> Option<seq<Entry>>, parseXml: Bytes -> Option<Element>)
    requires rs == LoadedAll(ps, disk, parseXml)
    ensures forall k :: 0 <= k < |rs| ==> rs[k].path == ps[k]
  {
    LoadedAllIndex(ps, disk, parseXml);
    forall k | 0 <= k < |rs|
      ensures rs[k].path == ps[k]
    {
      var tree := ReadComicInfo(disk(ps[k]), parseXml);
      assert rs[k] == Loaded(ps[k], tree);
      match tree
      case None =>
      case Some(root) =>
    }
  }

  /** Each new record is the one its path's archive gives: the descriptor
      read from it when there is one, empty fields otherwise, and clean. */
  lemma {:induction false} LoadedAllIndex(ps: seq<string>, disk: string -> Option<seq<Entry>>, parseXml: Bytes -> Option<Element>)
    ensures forall k :: 0 <= k < |ps| ==>
      LoadedAll(ps, disk, parseXml)[k] == Loaded(ps[k], ReadComicInfo(disk(ps[k]), parseXml))
  {
    if ps != [] {
      var init, last := ps[..|ps| - 1], ps[|ps| - 1];
      LoadedAllIndex(init, disk, parseXml);
      var rs0, rs := LoadedAll(init, disk, parseXml), LoadedAll(ps, disk, parseXml);
      assert rs == rs0 + [Loaded(last, ReadComicInfo(disk(last), parseXml))];
      forall k | 0 <= k < |ps|
        ensures rs[k] == Loaded(ps[k], ReadComicInfo(disk(ps[k]), parseXml))
      {
        if k < |init| {
          assert rs[k] == rs0[k] && init[k] == ps[k];
        } else {
          assert k == |init| && ps[k] == last;
        }
      }
    }
  }

  lemma PathsAppend(fs: seq<FileItem>, gs: seq<FileItem>)
    ensures Paths(fs + gs) == Paths(fs) + Paths(gs)
  {
    var l, r := Paths(fs + gs), Paths(fs) + Paths(gs);
    assert |l| == |r|;
    forall i | 0 <= i < |l|
      ensures l[i] == r[i]
    {
      if i < |fs| {
        assert (fs + gs)[i] == fs[i];
      } else {
        assert (fs + gs)[i] == gs[i - |fs|];
      }
    }
  }

  /** The test of `load_paths`' first loop: an offered path is skipped
      when the list, grown so far, already holds it. */
  method NewPathsOf(listed: seq<string>, paths: seq<string>) returns (np: seq<string>)
    ensures np == NewPaths(listed, paths)
  {
    var known := listed;
    np := [];
    for i := 0 to |paths|
      invariant known == listed + np
      invariant np == NewPaths(listed, paths[..i])
    {
      var p := paths[i];
      NewPathsStep(listed, paths, i, np);
      assert (p in known) == (p in listed || p in np);
      if p !in known {
        known := known + [p];
        np := np + [p];
      }
    }
    assert paths[..|paths|] == paths;
  }

  /** The body of `load_paths`' first loop for each new path in turn: a
      fresh entry filled from the archive's descriptor when there is one. */
  method LoadItems(ps: seq<string>, disk: string -> Option<seq<Entry>>, parseXml: Bytes -> Option<Element>)
    returns (added: seq<FileItem>)
    ensures Snaps(added) == LoadedAll(ps, disk, parseXml) && Paths(added) == ps
    ensures forall k :: 0 <= k < |added| ==> fresh(added[k])
  {
    added := [];
    for i := 0 to |ps|
      invariant Snaps(added) == LoadedAll(ps[..i], disk, parseXml)
      invariant forall k :: 0 <= k < |added| ==> fresh(added[k])
    {
      var fi := LoadItem(ps[i], disk, parseXml);
      SnapsPush(added, fi);
      LoadedAllPush(ps[..i], ps[i], disk, parseXml);
      PrefixPush(ps, i);
      added := added + [fi];
    }
    assert ps[..|ps|] == ps;
    LoadedAllPaths(Snaps(added), ps, disk, parseXml);
    SnapsPaths(added, Snaps(added), ps);
  }

  /** The paths of the entries are those of their records. */
  lemma SnapsPaths(fs: seq<FileItem>, rs: seq<Record>, ps: seq<string>)
    requires Snaps(fs) == rs && |rs| == |ps| && forall k :: 0 <= k < |rs| ==> rs[k].path == ps[k]
    ensures Paths(fs) == ps
  {
  }

  /** One iteration of `load_paths` for a path not yet listed: a fresh entry
      for the path, filled from the archive's descriptor when there is one. */
  method LoadItem(p: string, disk: string -> Option<seq<Entry>>, parseXml: Bytes -> Option<Element>)
    returns (fi: FileItem)
    ensures fresh(fi) && Snap(fi) == Loaded(p, ReadComicInfo(disk(p), parseXml))
  {
    fi := new FileItem(p);
    var tree := ReadComicInfoFromZip(disk(p), parseXml);
    if tree.Some? {
      fi.hasComicInfo := true;
      var m := MetaFromXml(tree.value);
      fi.meta := m;
      fi.savedMeta := m;
    }
  }

  // Entries that did not change keep their fields' values: stated once
  // here so that the steps that only reassign the list do not repeat it.

  twostate lemma SnapsKept(fs: seq<FileItem>)
    requires forall k :: 0 <= k < |fs| ==> unchanged(fs[k])
    ensures Snaps(fs) == old(Snaps(fs))
  {
  }

  twostate lemma PathsKept(fs: seq<FileItem>)
    requires forall k :: 0 <= k < |fs| ==> unchanged(fs[k])
    ensures Paths(fs) == old(Paths(fs))
  {
  }

  twostate lemma FreshApart(fs: seq<FileItem>, new gs: seq<FileItem>)
    requires forall i :: 0 <= i < |fs| ==> old(allocated(fs[i]))
    requires forall j :: 0 <= j < |gs| ==> fresh(gs[j])
    ensures forall i, j :: 0 <= i < |fs| && 0 <= j < |gs| ==> fs[i] != gs[j]
  {
  }

  /** `self.files`: the entries in table order. */
  class FileList {
    var files: seq<FileItem>

    /** No entry is listed twice, so changing one leaves the others alone. */
    predicate Valid()
      reads this
    {
      forall i, j :: 0 <= i < j < |files| ==> files[i] != files[j]
    }

    constructor ()
      ensures Valid() && files == []
    {
      files := [];
    }

    /** `clear_list`: every entry is dropped from the list. */
    method Clear()
      modifies this
      ensures Valid() && files == []
    {
      files := [];
    }

    /** The loop of `_common_meta` over the nine form keys and, inside, over
        the selected entries. */
    method CommonMeta(items: seq<FileItem>) returns (common: Meta)
      requires |items| > 0
      ensures common == UnifiedView(Metas(items))
    {
      common := map[];
      for ki := 0 to |FieldKeys|
        invariant forall k :: k in common <==> k in FieldKeys[..ki]
        invariant forall k :: k in common ==> common[k] == ViewValue(Metas(items), k)
      {
        var k := FieldKeys[ki];
        var val := CommonValue(items, k);
        common := common[k := val];
        assert FieldKeys[..ki + 1] == FieldKeys[..ki] + [k];
      }
      assert FieldKeys[..|FieldKeys|] == FieldKeys;
      UnifiedViewUnique(Metas(items), common);
    }

    /** One key of `_common_meta`: the values of the entries, absent read as
        "", then the common value, "" or the mixed-value marker. */
    method CommonValue(items: seq<FileItem>, k: string) returns (val: string)
      requires |items| > 0
      ensures val == ViewValue(Metas(items), k)
    {
      ghost var ms := Metas(items);
      var values: seq<string> := [];
      for j := 0 to |items|
        invariant |values| == j && forall t :: 0 <= t < j ==> values[t] == Get(ms[t], k)
      {
        var v := Get(items[j].meta, k);
        values := values + [v];
      }
      var first := values[0];
      if forall t :: 0 <= t < |values| ==> values[t] == first {
        val := first;
      } else if forall t :: 0 <= t < |values| ==> values[t] == "" {
        val := "";
      } else {
        val := Sentinel;
      }
      ViewValueFrom(ms, k, values);
    }

    /** The entries of the selected rows, in row order. */
    function Selected(sel: seq<nat>): (fs: seq<FileItem>)
      reads this
      requires forall a :: 0 <= a < |sel| ==> sel[a] < |files|
      ensures |fs| == |sel| && forall a :: 0 <= a < |sel| ==> fs[a] == files[sel[a]]
    {
      if sel == [] then [] else Selected(sel[..|sel| - 1]) + [files[sel[|sel| - 1]]]
    }

    /** `on_selection_changed`: the form shows the merged view of the
        selection, or empty fields when nothing is selected. */
    method OnSelectionChanged(sel: seq<nat>) returns (form: Meta)
      requires forall a :: 0 <= a < |sel| ==> sel[a] < |files|
      ensures form == FormFor(Metas(Selected(sel)))
    {
      if |sel| == 0 {
        form := map k | k in FieldKeys :: "";
        return;
      }
      var common := CommonMeta(Selected(sel));
      form := map k | k in FieldKeys :: Get(common, k);
    }

    /** Row numbers in increasing order, each naming an entry. */
    predicate Rows(sel: seq<nat>)
      reads this
    {
      (forall a, b :: 0 <= a < b < |sel| ==> sel[a] < sel[b]) && (forall a :: 0 <= a < |sel| ==> sel[a] < |files|)
    }

    /** `on_field_changed`: the form's values are written into every
        selected entry; the others are untouched.  `anyDirty` says whether
        some selected entry is dirty afterwards, `changedAny` whether some
        flag changed (the table is then redrawn). */
    method OnFieldChanged(sel: seq<nat>, cur: Meta) returns (anyDirty: bool, changedAny: bool)
      requires Valid() && Rows(sel)
      modifies files
      ensures forall a :: 0 <= a < |sel| ==> Snap(files[sel[a]]) == Edited(old(Snap(files[sel[a]])), cur)
      ensures forall i :: 0 <= i < |files| && i !in sel ==> Snap(files[i]) == old(Snap(files[i]))
      ensures anyDirty == SomeLeftDirty(old(Snaps(files)), sel, |sel|, cur)
      ensures changedAny == SomeFlagFlipped(old(Snaps(files)), sel, |sel|, cur)
    {
      ghost var before := Snaps(files);
      anyDirty, changedAny := false, false;
      for t := 0 to |sel|
        invariant forall i :: 0 <= i < |files| ==> Snap(files[i]) == EditedIf(before[i], i in sel[..t], cur)
        invariant anyDirty == SomeLeftDirty(before, sel, t, cur)
        invariant changedAny == SomeFlagFlipped(before, sel, t, cur)
      {
        assert sel[t] !in sel[..t];
        ghost var r := before[sel[t]];
        assert Snap(files[sel[t]]) == r;
        label step:
        var changed, flipped := EditRow(sel[t], cur);
        ghost var e := Edited(r, cur);
        assert changed == e.dirty && flipped == (r.dirty != e.dirty);
        assert SomeLeftDirty(before, sel, t + 1, cur) == (anyDirty || e.dirty);
        assert SomeFlagFlipped(before, sel, t + 1, cur) == (changedAny || e.dirty != r.dirty);
        if flipped {
          changedAny := true;
        }
        anyDirty := anyDirty || changed;
        PrefixPush(sel, t);
        forall i | 0 <= i < |files|
          ensures Snap(files[i]) == EditedIf(before[i], i in sel[..t + 1], cur)
        {
          assert (i in sel[..t + 1]) == (i in sel[..t] || i == sel[t]);
          if i != sel[t] {
            assert old@step(Snap(files[i])) == EditedIf(before[i], i in sel[..t], cur);
          }
        }
      }
      assert sel[..|sel|] == sel;
    }

    /** One step of `on_field_changed`: the form is written into the entry
        at row `i` and no other entry changes. */
    method EditRow(i: nat, cur: Meta) returns (changed: bool, flipped: bool)
      requires Valid() && i < |files|
      modifies files[i]
      ensures Snap(files[i]) == Edited(old(Snap(files[i])), cur)
      ensures forall j :: 0 <= j < |files| && j != i ==> Snap(files[j]) == old(Snap(files[j]))
      ensures changed == Edited(old(Snap(files[i])), cur).dirty
      ensures flipped == (old(files[i].dirty) != changed)
    {
      var it := files[i];
      assert forall j :: 0 <= j < |files| && j != i ==> files[j] != it;
      changed, flipped := it.ApplyForm(cur);
    }

    /** One step of the save loops: the entry at row `i` is saved and no
        other entry changes. */
    method SaveRow(i: nat, write: (string, Element) -> bool) returns (written: bool, ok: bool)
      requires Valid() && i < |files|
      modifies files[i]
      ensures Snap(files[i]) == SaveWith(old(Snap(files[i])), write)
      ensures forall j :: 0 <= j < |files| && j != i ==> Snap(files[j]) == old(Snap(files[j]))
      ensures written == old(files[i].dirty) && ok == WriteOk(old(Snap(files[i])), write)
    {
      var it := files[i];
      assert forall j :: 0 <= j < |files| && j != i ==> files[j] != it;
      written, ok := it.Save(write);
    }

    /** The loop shared by `save_current` and `save_all`: each listed
        entry is saved in turn; `log` lists the rows handed to the writer,
        `anySaved` says whether some write succeeded. */
    method SaveRows(sel: seq<nat>, write: (string, Element) -> bool) returns (anySaved: bool, log: seq<nat>)
      requires Valid() && Rows(sel)
      modifies files
      ensures forall a :: 0 <= a < |sel| ==> Snap(files[sel[a]]) == SaveWith(old(Snap(files[sel[a]])), write)
      ensures forall i :: 0 <= i < |files| && i !in sel ==> Snap(files[i]) == old(Snap(files[i]))
      ensures log == DirtyAmong(old(Snaps(files)), sel, |sel|)
      ensures anySaved == SomeSaved(old(Snaps(files)), sel, |sel|, write)
    {
      ghost var before := Snaps(files);
      anySaved, log := false, [];
      for t := 0 to |sel|
        invariant forall i :: 0 <= i < |files| ==> Snap(files[i]) == SavedIf(before[i], i in sel[..t], write)
        invariant log == DirtyAmong(before, sel, t)
        invariant anySaved == SomeSaved(before, sel, t, write)
      {
        assert sel[t] !in sel[..t];
        ghost var r := before[sel[t]];
        assert Snap(files[sel[t]]) == r;
        label step:
        var written, ok := SaveRow(sel[t], write);
        assert written == r.dirty && ok == WriteOk(r, write);
        assert DirtyAmong(before, sel, t + 1) == if r.dirty then log + [sel[t]] else log;
        assert SomeSaved(before, sel, t + 1, write) == (anySaved || ok);
        if written {
          log := log + [sel[t]];
        }
        if ok {
          anySaved := true;
        }
        PrefixPush(sel, t);
        forall i | 0 <= i < |files|
          ensures Snap(files[i]) == SavedIf(before[i], i in sel[..t + 1], write)
        {
          assert (i in sel[..t + 1]) == (i in sel[..t] || i == sel[t]);
          if i != sel[t] {
            assert old@step(Snap(files[i])) == SavedIf(before[i], i in sel[..t], write);
          }
        }
      }
      assert sel[..|sel|] == sel;
    }

    /** `save_current`: the selected dirty entries are written in row order. */
    method SaveCurrent(sel: seq<nat>, write: (string, Element) -> bool) returns (log: seq<nat>)
      requires Valid() && Rows(sel)
      modifies files
      ensures forall a :: 0 <= a < |sel| ==> Snap(files[sel[a]]) == SaveWith(old(Snap(files[sel[a]])), write)
      ensures forall i :: 0 <= i < |files| && i !in sel ==> Snap(files[i]) == old(Snap(files[i]))
      ensures log == DirtyAmong(old(Snaps(files)), sel, |sel|)
    {
      var _, written := SaveRows(sel, write);
      log := written;
    }

    /** `save_all`: every dirty entry is written in list order; the result
        says whether at least one write succeeded. */
    method SaveAll(write: (string, Element) -> bool) returns (anySaved: bool, log: seq<nat>)
      requires Valid()
      modifies files
      ensures forall i :: 0 <= i < |files| ==> Snap(files[i]) == SaveWith(old(Snap(files[i])), write)
      ensures log == DirtyAmong(old(Snaps(files)), Upto(|files|), |files|)
      ensures anySaved == SomeSaved(old(Snaps(files)), Upto(|files|), |files|, write)
    {
      var all := Upto(|files|);
      anySaved, log := SaveRows(all, write);
      forall i | 0 <= i < |files|
        ensures Snap(files[i]) == SaveWith(old(Snap(files[i])), write)
      {
        assert all[i] == i;
      }
    }

    /** The model update after a rename on disk succeeded: the first entry
        holding the old path takes the new one, and nothing else changes. */
    method RetargetPath(oldPath: string, newPath: string)
      requires Valid()
      modifies files
      ensures forall i :: 0 <= i < |files| ==>
        Snap(files[i]) == Retargeted(old(Snap(files[i])), IndexOf(old(Paths(files)), oldPath) == Some(i), newPath)
    {
      ghost var ps := Paths(files);
      for i := 0 to |files|
        invariant forall j :: 0 <= j < i ==> ps[j] != oldPath
      {
        if files[i].path == oldPath {
          assert IndexOf(ps, oldPath) == Some(i);
          SetPath(i, newPath);
          return;
        }
      }
      assert IndexOf(ps, oldPath) == None;
    }

    /** The entry at row `i` takes the path `p`; no other entry changes. */
    method SetPath(i: nat, p: string)
      requires Valid() && i < |files|
      modifies files[i]
      ensures forall j :: 0 <= j < |files| ==> Snap(files[j]) == Retargeted(old(Snap(files[j])), j == i, p)
    {
      var it := files[i];
      assert forall j :: 0 <= j < |files| && j != i ==> files[j] != it;
      it.path := p;
    }

    /** The model side of `on_table_item_changed` for a new file name: the
        existence test and the rename on disk are inputs. */
    method OnRenameCommitted(oldPath: string, newPath: string, targetExists: bool, replaceOk: bool)
      returns (outcome: RenameOutcome)
      requires Valid()
      modifies files
      ensures outcome ==
        if newPath == oldPath then Unchanged
        else if targetExists then Conflict
        else if !replaceOk then Failed
        else Renamed
      ensures forall i :: 0 <= i < |files| ==>
        Snap(files[i]) ==
          Retargeted(old(Snap(files[i])), outcome == Renamed && IndexOf(old(Paths(files)), oldPath) == Some(i), newPath)
    {
      if newPath == oldPath {
        return Unchanged;
      }
      if targetExists {
        return Conflict;
      }
      if !replaceOk {
        return Failed;
      }
      RetargetPath(oldPath, newPath);
      outcome := Renamed;
    }

    /** The sort at the end of `load_paths`: the entries are rearranged in
        place into the natural order of their file names, and entries whose
        names have the same key keep their relative order. */
    method SortFiles()
      requires Valid()
      modifies this
      ensures Valid()
      ensures multiset(files) == multiset(old(files))
      ensures SortedKeys(PathKeys(Paths(files)))
      ensures SameWithinKeys(files, PathKeys(Paths(files)), old(files), old(PathKeys(Paths(files))))
      ensures Distinct(old(Paths(files))) ==> Distinct(Paths(files))
    {
      var ys := SortedByName(files);
      label sorted:
      files := ys;
      PathsKept@sorted(ys);
    }

    /** `load_paths`: every path not yet listed is read and appended as a
        fresh entry, then the list is sorted by natural file-name order.
        `added` names the new entries in the order they were appended; their
        paths are `NewPaths(old(Paths(files)), paths)` (`LoadedAllPaths`). */
    method LoadPaths(paths: seq<string>, disk: string -> Option<seq<Entry>>, parseXml: Bytes -> Option<Element>)
      returns (added: seq<FileItem>)
      requires Valid()
      modifies this
      ensures Valid()
      ensures multiset(files) == multiset(old(files) + added)
      ensures SortedKeys(PathKeys(Paths(files)))
      ensures SameWithinKeys(files, PathKeys(Paths(files)), old(files) + added, PathKeys(Paths(old(files) + added)))
      ensures Snaps(added) == LoadedAll(NewPaths(old(Paths(files)), paths), disk, parseXml)
      ensures forall k :: 0 <= k < |added| ==> fresh(added[k])
      ensures Distinct(old(Paths(files))) ==> Distinct(Paths(files))
    {
      ghost var listed := Paths(files);
      added := NewEntries(paths, disk, parseXml);
      ghost var loaded := Snaps(added);
      PathsKept(files);
      assert Paths(files) == listed;
      label appended:
      AddEntries(added);
      SnapsKept@appended(added);
      assert Snaps(added) == loaded;
    }

    /** The first loop of `load_paths`: the entries it creates, before
        they are appended. */
    method NewEntries(paths: seq<string>, disk: string -> Option<seq<Entry>>, parseXml: Bytes -> Option<Element>)
      returns (added: seq<FileItem>)
      requires Valid()
      ensures Snaps(added) == LoadedAll(NewPaths(Paths(files), paths), disk, parseXml)
      ensures forall k :: 0 <= k < |added| ==> fresh(added[k])
      ensures Distinct(added)
      ensures forall i, j :: 0 <= i < |files| && 0 <= j < |added| ==> files[i] != added[j]
      ensures Distinct(Paths(files)) ==> Distinct(Paths(files + added))
    {
      var listed := Paths(files);
      var np := NewPathsOf(listed, paths);
      added := LoadItems(np, disk, parseXml);
      PathsKept(files);
      Extended(files, added, listed, paths);
      FreshApart(files, added);
    }

    /** The end of `load_paths`: the new entries are appended and the list
        is sorted by natural file-name order. */
    method AddEntries(added: seq<FileItem>)
      requires Valid() && Distinct(added)
      requires forall i, j :: 0 <= i < |files| && 0 <= j < |added| ==> files[i] != added[j]
      modifies this
      ensures Valid()
      ensures multiset(files) == multiset(old(files) + added)
      ensures SortedKeys(PathKeys(Paths(files)))
      ensures SameWithinKeys(files, PathKeys(Paths(files)), old(files) + added, PathKeys(Paths(old(files) + added)))
      ensures Distinct(old(Paths(files + added))) ==> Distinct(Paths(files))
    {
      DistinctAppend(files, added);
      var grown := files + added;
      files := grown;
      PathsKept(grown);
      label grown:
      SortFiles();
      PathsKept@grown(grown);
    }
  }
}
