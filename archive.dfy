/**
  The archive side of the editor.  A CBZ/zip container is modelled as its
  listing: a sequence of entries, each a name and the entry's bytes, in the
  order `ZipFile.namelist()` returns them (a name may be listed twice).
  Compression, the zip format and the file system are not modelled; a
  container that cannot be opened is `None`.
 */
module Archive {
  import opened Wrappers
  import opened Ascii
  import opened ComicInfo

  newtype byte = x: int | 0 <= x < 256

  type Bytes = seq<byte>

  datatype Entry = Entry(name: string, data: Bytes)

  /** The name the descriptor is written under. */
  const DescriptorName: string := "ComicInfo.xml"

  /** An entry is taken for a descriptor when its lower-cased name ends
      with this, wherever it sits in the archive. */
  const DescriptorSuffix: string := "comicinfo.xml"

  predicate IsDescriptorName(n: string) {
    EndsWith(Lower(n), DescriptorSuffix)
  }

  /** The image extensions the thumbnail lookup accepts. */
  predicate IsImageName(n: string) {
    var l := Lower(n);
    EndsWith(l, ".png") || EndsWith(l, ".jpg") || EndsWith(l, ".jpeg")
    || EndsWith(l, ".webp") || EndsWith(l, ".bmp") || EndsWith(l, ".gif")
  }

  lemma DescriptorNameIsDescriptor()
    ensures IsDescriptorName(DescriptorName)
  {
    assert Lower(DescriptorName) == DescriptorSuffix;
  }

  /** No name is both an image and a descriptor: the last characters differ. */
  lemma ImageIsNotDescriptor(n: string)
    requires IsImageName(n)
    ensures !IsDescriptorName(n)
  {
    var l := Lower(n);
    assert |l| > 0 && (l[|l| - 1] == 'g' || l[|l| - 1] == 'p' || l[|l| - 1] == 'f');
  }

  // ---------------------------------------------------------------------
  // Lookups
  // ---------------------------------------------------------------------

  /** The position of the first listed entry whose name satisfies `p`. */
  function FirstMatching(es: seq<Entry>, p: string -> bool): (r: Option<nat>)
    ensures r.None? ==> forall i :: 0 <= i < |es| ==> !p(es[i].name)
    ensures r.Some? ==> r.value < |es| && p(es[r.value].name)
    ensures r.Some? ==> forall j :: 0 <= j < r.value ==> !p(es[j].name)
  {
    if es == [] then None
    else if p(es[0].name) then Some(0)
    else match FirstMatching(es[1..], p)
      case None => None
      case Some(i) => Some(i + 1)
  }

  /** The position of the last entry listed under exactly this name: the
      one `ZipFile` keeps in its name table. */
  function LastWithName(es: seq<Entry>, name: string): (r: Option<nat>)
    ensures r.None? ==> forall i :: 0 <= i < |es| ==> es[i].name != name
    ensures r.Some? ==> r.value < |es| && es[r.value].name == name
    ensures r.Some? ==> forall j :: r.value < j < |es| ==> es[j].name != name
  {
    if es == [] then None
    else if es[|es| - 1].name == name then Some(|es| - 1)
    else LastWithName(es[..|es| - 1], name)
  }

  /** `z.read(name)`: the bytes of the last entry with that name; a name
      that is not listed raises, here `None`. */
  function ReadEntry(es: seq<Entry>, name: string): Option<Bytes> {
    match LastWithName(es, name)
    case None => None
    case Some(i) => Some(es[i].data)
  }

  /** `read_comicinfo_from_zip`: the first listed name that looks like a
      descriptor is read and handed to the XML parser; an unreadable
      archive, a missing descriptor or a parse failure gives `None`. */
  function ReadComicInfo(archive: Option<seq<Entry>>, parseXml: Bytes -> Option<Element>): Option<Element> {
    match archive
    case None => None
    case Some(es) =>
      match FirstMatching(es, IsDescriptorName)
      case None => None
      case Some(i) =>
        match ReadEntry(es, es[i].name)
        case None => None
        case Some(data) => parseXml(data)
  }

  /** The loop of `read_comicinfo_from_zip` over the listing, stopping at
      the first descriptor name. */
  method ReadComicInfoFromZip(archive: Option<seq<Entry>>, parseXml: Bytes -> Option<Element>)
    returns (root: Option<Element>)
    ensures root == ReadComicInfo(archive, parseXml)
  {
    if archive.None? {
      return None;
    }
    var es := archive.value;
    var nam: Option<string> := None;
    var i := 0;
    while i < |es| && nam.None?
      invariant 0 <= i <= |es|
      invariant nam.None? ==> forall j :: 0 <= j < i ==> !IsDescriptorName(es[j].name)
      invariant nam.Some? ==> 0 < i && nam == Some(es[i - 1].name) && IsDescriptorName(es[i - 1].name)
      invariant nam.Some? ==> forall j :: 0 <= j < i - 1 ==> !IsDescriptorName(es[j].name)
    {
      if IsDescriptorName(es[i].name) {
        nam := Some(es[i].name);
      }
      i := i + 1;
    }
    if nam.None? {
      return None;
    }
    var data := ReadEntry(es, nam.value);
    if data.None? {
      return None;
    }
    root := parseXml(data.value);
  }

  /** `get_first_image_from_zip`: the bytes read under the first listed
      image name, `None` when the archive is unreadable or holds no image. */
  function FirstImage(archive: Option<seq<Entry>>): Option<Bytes> {
    match archive
    case None => None
    case Some(es) =>
      match FirstMatching(es, IsImageName)
      case None => None
      case Some(i) => ReadEntry(es, es[i].name)
  }

  /** The loop of `get_first_image_from_zip`, returning at the first image. */
  method GetFirstImageFromZip(archive: Option<seq<Entry>>) returns (img: Option<Bytes>)
    ensures img == FirstImage(archive)
  {
    if archive.None? {
      return None;
    }
    var es := archive.value;
    for i := 0 to |es|
      invariant forall j :: 0 <= j < i ==> !IsImageName(es[j].name)
    {
      if IsImageName(es[i].name) {
        FirstMatchingUnique(es, IsImageName, i);
        return ReadEntry(es, es[i].name);
      }
    }
    assert FirstMatching(es, IsImageName).None?;
    return None;
  }

  // ---------------------------------------------------------------------
  // Rebuild
  // ---------------------------------------------------------------------

  /** The entries whose names do not look like a descriptor, in listing order. */
  function Others(es: seq<Entry>): (r: seq<Entry>)
    ensures forall e :: e in r <==> e in es && !IsDescriptorName(e.name)
  {
    if es == [] then []
    else (if IsDescriptorName(es[0].name) then [] else [es[0]]) + Others(es[1..])
  }

  /** The bytes `z.read(name)` gives for a listed name. */
  function Latest(es: seq<Entry>, name: string): Bytes {
    match ReadEntry(es, name)
    case None => []
    case Some(d) => d
  }

  /** The entries the rebuild gathers: every listed name that does not look
      like a descriptor, paired with what `z.read` gives for that name. */
  function Kept(es: seq<Entry>): (r: seq<Entry>)
    ensures |r| == |Others(es)|
    ensures forall i :: 0 <= i < |r| ==> r[i] == Entry(Others(es)[i].name, Latest(es, Others(es)[i].name))
  {
    var os := Others(es);
    seq(|os|, i requires 0 <= i < |os| => Entry(os[i].name, Latest(es, os[i].name)))
  }

  /** The archive `write_comicinfo_to_zip` writes back: the kept entries in
      order, then the new descriptor under "ComicInfo.xml". */
  function Rebuild(es: seq<Entry>, xml: Bytes): seq<Entry> {
    Kept(es) + [Entry(DescriptorName, xml)]
  }

  /** What `write_comicinfo_to_zip` does to the file.  `writeOk` says
      whether `path.write_bytes` completed; when it raises, the file has
      been overwritten in place only in part and its contents are unknown. */
  datatype WriteOutcome = Written(archive: seq<Entry>) | Untouched | Unknown

  /** The returned flag is `True` exactly when the outcome is `Written`. */
  function WriteComicInfoToZip(archive: Option<seq<Entry>>, xml: Bytes, writeOk: bool): (r: WriteOutcome)
    ensures r.Written? <==> archive.Some? && writeOk
    ensures r.Untouched? <==> archive.None?
    ensures r.Written? ==> r.archive == Rebuild(archive.value, xml)
  {
    match archive
    case None => Untouched
    case Some(es) => if writeOk then Written(Rebuild(es, xml)) else Unknown
  }

  /** Two listed entries with the same name hold the same bytes. */
  predicate Consistent(es: seq<Entry>) {
    forall i, j :: 0 <= i < |es| && 0 <= j < |es| && es[i].name == es[j].name ==> es[i].data == es[j].data
  }

  predicate DistinctNames(es: seq<Entry>) {
    forall i, j :: 0 <= i < j < |es| ==> es[i].name != es[j].name
  }

  lemma LatestOfListed(es: seq<Entry>, e: Entry)
    requires e in es && Consistent(es)
    ensures ReadEntry(es, e.name) == Some(e.data) && Latest(es, e.name) == e.data
  {
    var k :| 0 <= k < |es| && es[k] == e;
  }

  lemma OthersAppend(a: seq<Entry>, b: seq<Entry>)
    ensures Others(a + b) == Others(a) + Others(b)
  {
    if a == [] {
      assert a + b == b;
    } else {
      assert (a + b)[1..] == a[1..] + b;
      OthersAppend(a[1..], b);
    }
  }

  lemma {:induction false} OthersOfClean(es: seq<Entry>)
    requires forall i :: 0 <= i < |es| ==> !IsDescriptorName(es[i].name)
    ensures Others(es) == es
  {
    if es != [] {
      OthersOfClean(es[1..]);
      assert es == [es[0]] + es[1..];
    }
  }

  /** In an archive whose same-named entries agree, reading every kept name
      gives back exactly the non-descriptor entries, bytes unchanged. */
  lemma KeptOfConsistent(es: seq<Entry>)
    requires Consistent(es)
    ensures Kept(es) == Others(es)
  {
    var os := Others(es);
    forall i | 0 <= i < |os|
      ensures Kept(es)[i] == os[i]
    {
      assert os[i] in os;
      LatestOfListed(es, os[i]);
    }
  }

  /** The rebuild keeps every entry whose name does not look like a
      descriptor, in listing order, each with the bytes `z.read` gives for
      its name; when names are not repeated, these are the original bytes. */
  lemma RebuildKeepsOthers(es: seq<Entry>, xml: Bytes)
    ensures var r := Rebuild(es, xml);
      && |r| == |Others(es)| + 1
      && (forall i :: 0 <= i < |Others(es)| ==>
            r[i].name == Others(es)[i].name && Some(r[i].data) == ReadEntry(es, r[i].name))
      && (Consistent(es) ==> r == Others(es) + [Entry(DescriptorName, xml)])
  {
    var os, r := Others(es), Rebuild(es, xml);
    forall i | 0 <= i < |os|
      ensures r[i].name == os[i].name && Some(r[i].data) == ReadEntry(es, r[i].name)
    {
      assert r[i] == Kept(es)[i] == Entry(os[i].name, Latest(es, os[i].name));
      assert os[i] in os;
      var k :| 0 <= k < |es| && es[k] == os[i];
      ReadListed(es, k);
    }
    if Consistent(es) {
      KeptOfConsistent(es);
    }
  }

  lemma DistinctIsConsistent(es: seq<Entry>)
    requires DistinctNames(es)
    ensures Consistent(es)
  {
    forall i, j | 0 <= i < |es| && 0 <= j < |es| && es[i].name == es[j].name
      ensures es[i].data == es[j].data
    {
      assert i == j;
    }
  }

  /** The rebuilt archive holds exactly one descriptor, the last entry,
      named "ComicInfo.xml" and holding the new bytes. */
  lemma RebuildHasOneDescriptor(es: seq<Entry>, xml: Bytes)
    ensures var r := Rebuild(es, xml);
      && r[|r| - 1] == Entry(DescriptorName, xml)
      && forall i :: 0 <= i < |r| ==> (IsDescriptorName(r[i].name) <==> i == |r| - 1)
  {
    DescriptorNameIsDescriptor();
    var os := Others(es);
    var r := Rebuild(es, xml);
    forall i | 0 <= i < |r| - 1
      ensures !IsDescriptorName(r[i].name)
    {
      assert r[i].name == os[i].name && os[i] in os;
    }
  }

  /** The kept entries agree on same-named bytes, and so does the rebuilt
      archive. */
  lemma RebuildConsistent(es: seq<Entry>, xml: Bytes)
    ensures Consistent(Rebuild(es, xml))
  {
    var r := Rebuild(es, xml);
    RebuildHasOneDescriptor(es, xml);
    forall i, j | 0 <= i < |r| && 0 <= j < |r| && r[i].name == r[j].name
      ensures r[i].data == r[j].data
    {
      if i < |r| - 1 && j < |r| - 1 {
      } else if i == |r| - 1 && j == |r| - 1 {
      }
    }
  }

  /** The descriptor written is the one read back: the reader's lookup finds
      the new entry and only it. */
  lemma RebuildReadsBack(es: seq<Entry>, xml: Bytes, parseXml: Bytes -> Option<Element>)
    ensures ReadComicInfo(Some(Rebuild(es, xml)), parseXml) == parseXml(xml)
  {
    var r := Rebuild(es, xml);
    RebuildHasOneDescriptor(es, xml);
    var f := FirstMatching(r, IsDescriptorName);
    assert f == Some(|r| - 1);
    assert LastWithName(r, DescriptorName) == Some(|r| - 1);
  }

  /** Rewriting the descriptor twice is rewriting it once with the second
      bytes: the first descriptor leaves no trace. */
  lemma RebuildTwice(es: seq<Entry>, x1: Bytes, x2: Bytes)
    ensures Rebuild(Rebuild(es, x1), x2) == Rebuild(es, x2)
  {
    var k, d := Kept(es), Entry(DescriptorName, x1);
    var r := Rebuild(es, x1);
    assert r == k + [d];
    RebuildConsistent(es, x1);
    KeptOfConsistent(r);
    assert Kept(r) == Others(r);
    RebuildHasOneDescriptor(es, x1);
    forall i | 0 <= i < |k|
      ensures !IsDescriptorName(k[i].name)
    {
      assert r[i] == k[i];
    }
    OthersOfClean(k);
    DescriptorNameIsDescriptor();
    assert Others([d]) == [];
    OthersAppend(k, [d]);
    assert Kept(r) == k;
  }

  /** One unfolding of FirstMatching at the front of the listing. */
  lemma FirstMatchingCons(e: Entry, rest: seq<Entry>, p: string -> bool)
    ensures var f, g := FirstMatching([e] + rest, p), FirstMatching(rest, p);
      && (p(e.name) ==> f == Some(0))
      && (!p(e.name) ==> (f.None? <==> g.None?) && (g.Some? ==> f == Some(g.value + 1)))
  {
    assert ([e] + rest)[1..] == rest;
  }

  /** The image lookup stops, in `es` and in its filtered copy `os`, at the
      same entry, or finds nothing in both. */
  predicate SameFirstImage(es: seq<Entry>, os: seq<Entry>) {
    var f, g := FirstMatching(es, IsImageName), FirstMatching(os, IsImageName);
    && (f.None? <==> g.None?)
    && (f.Some? ==> es[f.value] == os[g.value])
  }

  /** A descriptor in front is no image and is filtered out. */
  lemma FirstImageSkipsDescriptor(e: Entry, rest: seq<Entry>)
    requires IsDescriptorName(e.name) && SameFirstImage(rest, Others(rest))
    ensures SameFirstImage([e] + rest, Others([e] + rest))
  {
    assert ([e] + rest)[1..] == rest;
    assert Others([e] + rest) == Others(rest);
    assert !IsImageName(e.name) by {
      if IsImageName(e.name) { ImageIsNotDescriptor(e.name); }
    }
    FirstMatchingCons(e, rest, IsImageName);
  }

  /** Another entry in front is kept by the filter. */
  lemma FirstImageKeepsOther(e: Entry, rest: seq<Entry>)
    requires !IsDescriptorName(e.name) && SameFirstImage(rest, Others(rest))
    ensures SameFirstImage([e] + rest, Others([e] + rest))
  {
    assert ([e] + rest)[1..] == rest;
    assert Others([e] + rest) == [e] + Others(rest);
    FirstMatchingCons(e, rest, IsImageName);
    FirstMatchingCons(e, Others(rest), IsImageName);
  }

  /** The first image among the non-descriptor entries is the first image. */
  lemma {:induction false} FirstImageOfOthers(es: seq<Entry>)
    ensures SameFirstImage(es, Others(es))
  {
    if es != [] {
      var e, rest := es[0], es[1..];
      assert es == [e] + rest;
      FirstImageOfOthers(rest);
      if IsDescriptorName(e.name) {
        FirstImageSkipsDescriptor(e, rest);
      } else {
        FirstImageKeepsOther(e, rest);
      }
    }
  }

  /** FirstMatching is the only position with the first-match property. */
  lemma FirstMatchingUnique(es: seq<Entry>, p: string -> bool, k: nat)
    requires k < |es| && p(es[k].name) && forall j :: 0 <= j < k ==> !p(es[j].name)
    ensures FirstMatching(es, p) == Some(k)
  {
  }

  /** A listed name reads as its last entry's bytes. */
  lemma ReadListed(es: seq<Entry>, i: nat)
    requires i < |es|
    ensures ReadEntry(es, es[i].name) == Some(Latest(es, es[i].name))
  {
  }

  /** The image lookup on the rebuilt archive stops where it stops among the
      non-descriptor entries. */
  lemma RebuildFirstImageIndex(es: seq<Entry>, xml: Bytes)
    ensures FirstMatching(Rebuild(es, xml), IsImageName) == FirstMatching(Others(es), IsImageName)
  {
    var os := Others(es);
    var r := Rebuild(es, xml);
    assert r[|os|] == Entry(DescriptorName, xml);
    assert !IsImageName(DescriptorName) by {
      DescriptorNameIsDescriptor();
      if IsImageName(DescriptorName) { ImageIsNotDescriptor(DescriptorName); }
    }
    forall i | 0 <= i < |os|
      ensures os[i].name == r[i].name
    {
      assert r[i] == Kept(es)[i];
    }
    FirstMatchingSameNames(os, r, IsImageName);
  }

  /** A lookup by name sees only names: a list with the same names, and
      only non-matching ones after them, matches at the same place. */
  lemma FirstMatchingSameNames(xs: seq<Entry>, ys: seq<Entry>, p: string -> bool)
    requires |xs| <= |ys| && forall i :: 0 <= i < |xs| ==> xs[i].name == ys[i].name
    requires forall i :: |xs| <= i < |ys| ==> !p(ys[i].name)
    ensures FirstMatching(ys, p) == FirstMatching(xs, p)
  {
    var g := FirstMatching(xs, p);
    if g.Some? {
      FirstMatchingUnique(ys, p, g.value);
    } else {
      forall i | 0 <= i < |ys|
        ensures !p(ys[i].name)
      {
        if i < |xs| {
          assert !p(xs[i].name);
        }
      }
    }
  }

  /** Rewriting the descriptor does not change the thumbnail. */
  lemma RebuildKeepsFirstImage(es: seq<Entry>, xml: Bytes)
    ensures FirstImage(Some(Rebuild(es, xml))) == FirstImage(Some(es))
  {
    var os := Others(es);
    var r := Rebuild(es, xml);
    FirstImageOfOthers(es);
    RebuildFirstImageIndex(es, xml);
    var f := FirstMatching(es, IsImageName);
    if f.Some? {
      var at := FirstMatching(os, IsImageName).value;
      RebuildConsistent(es, xml);
      LatestOfListed(r, r[at]);
      ReadListed(es, f.value);
    }
  }

  /** A completed write leaves an archive whose descriptor reads back as the
      bytes written and whose thumbnail is the one it had before. */
  lemma WrittenReadsBack(archive: Option<seq<Entry>>, xml: Bytes, writeOk: bool, parseXml: Bytes -> Option<Element>)
    requires WriteComicInfoToZip(archive, xml, writeOk).Written?
    ensures ReadComicInfo(Some(WriteComicInfoToZip(archive, xml, writeOk).archive), parseXml) == parseXml(xml)
    ensures FirstImage(Some(WriteComicInfoToZip(archive, xml, writeOk).archive)) == FirstImage(archive)
  {
    RebuildReadsBack(archive.value, xml, parseXml);
    RebuildKeepsFirstImage(archive.value, xml);
  }
}
