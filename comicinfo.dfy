/**
  The ComicInfo descriptor codec: the XML element is modelled as its list of
  direct children, each a tag and a text (an empty text stands for a missing
  one), under a root element.  A descriptor (`meta`) is the string-to-string
  dictionary the editor keeps for a file.
 */
module ComicInfo {
  import opened Wrappers

  /** The value the editing form shows when the selected records disagree. */
  const Sentinel: string := "<\U{AC1C}\U{BCC4}\U{AC12}>"

  /** The keys of the editing form, in form order. */
  const FieldKeys: seq<string> :=
    ["SeriesGroup", "Series", "Title", "Volume", "Number", "Year", "Month", "Day", "Author"]

  /** The child tags read from a descriptor, which is also the order in
      which they are written. */
  const Tags: seq<string> :=
    ["SeriesGroup", "Series", "Title", "Volume", "Number", "Year", "Month", "Day", "Penciller", "Inker"]

  type Meta = map<string, string>

  /** `meta.get(k, "")`: an absent key reads as the empty string. */
  function Get(m: Meta, k: string): string {
    if k in m then m[k] else ""
  }

  /** The test `value and value != "<개별값>"` that decides whether a value is
      written or kept. */
  predicate Writable(v: string) {
    v != "" && v != Sentinel
  }

  /** The value of `k` as far as a descriptor can hold it: the value itself
      when it would be written, the empty string otherwise. */
  function Stored(m: Meta, k: string): string {
    if Writable(Get(m, k)) then Get(m, k) else ""
  }

  datatype Child = Child(tag: string, text: string)

  datatype Element = Element(tag: string, children: seq<Child>)

  /** `root.find(tag)`: the position of the first direct child with that tag. */
  function Find(cs: seq<Child>, tag: string): (r: Option<nat>)
    ensures r.None? ==> forall i :: 0 <= i < |cs| ==> cs[i].tag != tag
    ensures r.Some? ==> r.value < |cs| && cs[r.value].tag == tag
    ensures r.Some? ==> forall j :: 0 <= j < r.value ==> cs[j].tag != tag
  {
    if cs == [] then None
    else if cs[0].tag == tag then Some(0)
    else match Find(cs[1..], tag)
      case None => None
      case Some(i) => Some(i + 1)
  }

  /** The text of the first child with that tag, empty when there is none. */
  function FirstText(root: Element, tag: string): string {
    match Find(root.children, tag)
    case None => ""
    case Some(i) => root.children[i].text
  }

  /** `i` is the position of the first direct child tagged `t`. */
  predicate IsFirst(cs: seq<Child>, t: string, i: int) {
    0 <= i < |cs| && cs[i].tag == t && forall j :: 0 <= j < i ==> cs[j].tag != t
  }

  /** The tags whose first child has a non-empty text, with that text. */
  function Found(root: Element): (f: Meta)
    ensures forall t :: t in f <==> t in Tags && FirstText(root, t) != ""
    ensures forall t :: t in f ==> f[t] == FirstText(root, t)
  {
    map t | t in Tags && FirstText(root, t) != "" :: FirstText(root, t)
  }

  /** `_meta_from_xml`: every tag whose first child has a non-empty text is
      copied, then Author is Penciller's value, or else Inker's. */
  function ParseMeta(root: Element): Meta {
    var found := Found(root);
    var author := if Get(found, "Penciller") != "" then Get(found, "Penciller") else Get(found, "Inker");
    if author != "" then found["Author" := author] else found
  }

  /** The loop of `_meta_from_xml` over its tag mapping. */
  method MetaFromXml(root: Element) returns (out: Meta)
    ensures out == ParseMeta(root)
  {
    out := map[];
    for i := 0 to |Tags|
      invariant forall t :: t in out <==> t in Tags[..i] && FirstText(root, t) != ""
      invariant forall t :: t in out ==> out[t] == FirstText(root, t)
    {
      var tag := Tags[i];
      var el := Find(root.children, tag);
      if el.Some? && root.children[el.value].text != "" {
        out := out[tag := root.children[el.value].text];
      }
      assert Tags[..i + 1] == Tags[..i] + [tag];
    }
    assert Tags[..|Tags|] == Tags;
    ghost var found := Found(root);
    assert out.Keys == found.Keys;
    assert out == found;
    var author := if Get(out, "Penciller") != "" then Get(out, "Penciller") else Get(out, "Inker");
    if author != "" {
      out := out["Author" := author];
    }
  }

  /** A tag's key is set exactly when its first child has a non-empty text,
      and then holds that text. */
  lemma ParseTagKey(root: Element, t: string)
    requires t in Tags
    ensures t in ParseMeta(root) <==> FirstText(root, t) != ""
    ensures t in ParseMeta(root) ==> ParseMeta(root)[t] == FirstText(root, t)
  {
    KeysAndTags();
    assert t != "Author";
  }

  /** Parsing looks only at the first direct child with each tag: the key is
      set exactly when that child's text is non-empty, to that text, and it
      is absent when no child has the tag.  No key outside the ten tags and
      Author is ever set, and no value is empty. */
  lemma ParseTakesFirstMatch(root: Element)
    ensures forall t, i :: t in Tags && IsFirst(root.children, t, i) ==>
      (t in ParseMeta(root) <==> root.children[i].text != "")
      && (t in ParseMeta(root) ==> ParseMeta(root)[t] == root.children[i].text)
    ensures forall t :: t in Tags && (forall i :: 0 <= i < |root.children| ==> root.children[i].tag != t) ==>
      t !in ParseMeta(root)
    ensures forall k :: k in ParseMeta(root) ==> (k in Tags || k == "Author") && ParseMeta(root)[k] != ""
  {
    var cs := root.children;
    forall t, i | t in Tags && IsFirst(cs, t, i)
      ensures (t in ParseMeta(root) <==> cs[i].text != "")
        && (t in ParseMeta(root) ==> ParseMeta(root)[t] == cs[i].text)
    {
      ParseTagKey(root, t);
      var r := Find(cs, t);
      assert r.Some? && r.value == i;
    }
    forall t | t in Tags && (forall i :: 0 <= i < |cs| ==> cs[i].tag != t)
      ensures t !in ParseMeta(root)
    {
      ParseTagKey(root, t);
    }
  }

  /** Author is Penciller when that is non-empty, else Inker, and absent when
      both are empty. */
  lemma ParseFoldsAuthor(root: Element)
    ensures var p := ParseMeta(root);
      && ("Author" in p <==> FirstText(root, "Penciller") != "" || FirstText(root, "Inker") != "")
      && Get(p, "Author") ==
           (if FirstText(root, "Penciller") != "" then FirstText(root, "Penciller")
            else FirstText(root, "Inker"))
  {
  }

  /** `add(tag, value)`. */
  function Add(tag: string, value: string): seq<Child> {
    if Writable(value) then [Child(tag, value)] else []
  }

  /** `_build_xml_from_meta`: a ComicInfo root with the eight plain fields
      in fixed order, then Author written as both Penciller and Inker. */
  function BuildXml(cur: Meta): Element {
    var author := Get(cur, "Author");
    Element("ComicInfo",
      Add("SeriesGroup", Get(cur, "SeriesGroup"))
      + Add("Series", Get(cur, "Series"))
      + Add("Title", Get(cur, "Title"))
      + Add("Volume", Get(cur, "Volume"))
      + Add("Number", Get(cur, "Number"))
      + Add("Year", Get(cur, "Year"))
      + Add("Month", Get(cur, "Month"))
      + Add("Day", Get(cur, "Day"))
      + (if Writable(author) then Add("Penciller", author) + Add("Inker", author) else []))
  }

  /** The form key whose value a tag carries when written. */
  function SourceKey(tag: string): string {
    if tag == "Penciller" || tag == "Inker" then "Author" else tag
  }

  /** The position of a tag in the write order (|Tags| for other tags). */
  function Rank(tag: string): nat {
    if tag == "SeriesGroup" then 0
    else if tag == "Series" then 1
    else if tag == "Title" then 2
    else if tag == "Volume" then 3
    else if tag == "Number" then 4
    else if tag == "Year" then 5
    else if tag == "Month" then 6
    else if tag == "Day" then 7
    else if tag == "Penciller" then 8
    else if tag == "Inker" then 9
    else 10
  }

  lemma RankOfTags()
    ensures |Tags| == 10
    ensures forall i :: 0 <= i < |Tags| ==> Rank(Tags[i]) == i
    ensures forall t :: t in Tags <==> Rank(t) < 10
  {
  }

  /** The children written for the first `n` tags of the write order. */
  function EmitUpTo(m: Meta, n: nat): seq<Child>
    requires n <= |Tags|
  {
    if n == 0 then [] else EmitUpTo(m, n - 1) + Add(Tags[n - 1], Get(m, SourceKey(Tags[n - 1])))
  }

  lemma SourceKeys()
    ensures forall i :: 0 <= i < 8 ==> SourceKey(Tags[i]) == Tags[i]
    ensures SourceKey(Tags[8]) == "Author" && SourceKey(Tags[9]) == "Author"
  {
  }

  lemma EmitPlain(m: Meta)
    ensures EmitUpTo(m, 8) ==
      Add("SeriesGroup", Get(m, "SeriesGroup"))
      + Add("Series", Get(m, "Series"))
      + Add("Title", Get(m, "Title"))
      + Add("Volume", Get(m, "Volume"))
      + Add("Number", Get(m, "Number"))
      + Add("Year", Get(m, "Year"))
      + Add("Month", Get(m, "Month"))
      + Add("Day", Get(m, "Day"))
  {
    SourceKeys();
    var e1 := EmitUpTo(m, 1);
    assert e1 == EmitUpTo(m, 0) + Add("SeriesGroup", Get(m, "SeriesGroup"));
    assert EmitUpTo(m, 0) == [];
    assert e1 == Add("SeriesGroup", Get(m, "SeriesGroup"));
    var e2 := EmitUpTo(m, 2);
    assert e2 == e1 + Add("Series", Get(m, "Series"));
    var e3 := EmitUpTo(m, 3);
    assert e3 == e2 + Add("Title", Get(m, "Title"));
    var e4 := EmitUpTo(m, 4);
    assert e4 == e3 + Add("Volume", Get(m, "Volume"));
    var e5 := EmitUpTo(m, 5);
    assert e5 == e4 + Add("Number", Get(m, "Number"));
    var e6 := EmitUpTo(m, 6);
    assert e6 == e5 + Add("Year", Get(m, "Year"));
    var e7 := EmitUpTo(m, 7);
    assert e7 == e6 + Add("Month", Get(m, "Month"));
  }

  lemma EmitAuthor(m: Meta)
    ensures EmitUpTo(m, 10) == EmitUpTo(m, 8) + (Add("Penciller", Get(m, "Author")) + Add("Inker", Get(m, "Author")))
  {
    SourceKeys();
    var e9 := EmitUpTo(m, 9);
    assert e9 == EmitUpTo(m, 8) + Add("Penciller", Get(m, "Author"));
  }

  lemma BuildXmlIsEmit(m: Meta)
    ensures BuildXml(m).tag == "ComicInfo"
    ensures BuildXml(m).children == EmitUpTo(m, 10)
  {
    EmitPlain(m);
    EmitAuthor(m);
    var author := Get(m, "Author");
    assert (if Writable(author) then Add("Penciller", author) + Add("Inker", author) else [])
      == Add("Penciller", author) + Add("Inker", author);
  }

  /** One step of EmitUpTo: the child for tag `n - 1`, if any, goes last. */
  lemma EmitUpToStep(m: Meta, n: nat)
    requires 0 < n <= |Tags|
    ensures var v := Get(m, SourceKey(Tags[n - 1]));
      EmitUpTo(m, n) == if Writable(v) then EmitUpTo(m, n - 1) + [Child(Tags[n - 1], v)] else EmitUpTo(m, n - 1)
  {
    var v := Get(m, SourceKey(Tags[n - 1]));
    if !Writable(v) {
      assert EmitUpTo(m, n - 1) + [] == EmitUpTo(m, n - 1);
    }
  }

  /** The value written for each tag of the write order. */
  function TagValues(m: Meta): (vs: seq<string>)
    ensures |vs| == |Tags| && forall j :: 0 <= j < |Tags| ==> vs[j] == Get(m, SourceKey(Tags[j]))
  {
    seq(|Tags|, j requires 0 <= j < |Tags| => Get(m, SourceKey(Tags[j])))
  }

  /** The `add` calls for the first `n` of any tags and values. */
  function Emit(tags: seq<string>, vals: seq<string>, n: nat): seq<Child>
    requires n <= |tags| && n <= |vals|
  {
    if n == 0 then [] else Emit(tags, vals, n - 1) + Add(tags[n - 1], vals[n - 1])
  }

  /** The positions among the first `n` whose value is writable. */
  function Picked(vals: seq<string>, n: nat): (ix: seq<nat>)
    requires n <= |vals|
    ensures forall a :: 0 <= a < |ix| ==> ix[a] < n
  {
    if n == 0 then [] else Picked(vals, n - 1) + (if Writable(vals[n - 1]) then [n - 1] else [])
  }

  /** The picked positions increase, hold writable values,
      and include every position below `n` whose value is writable. */
  lemma {:induction false} PickedFacts(vals: seq<string>, n: nat)
    requires n <= |vals|
    ensures forall a :: 0 <= a < |Picked(vals, n)| ==> Writable(vals[Picked(vals, n)[a]])
    ensures forall a, b :: 0 <= a < b < |Picked(vals, n)| ==> Picked(vals, n)[a] < Picked(vals, n)[b]
    ensures forall j :: 0 <= j < n && Writable(vals[j]) ==> j in Picked(vals, n)
  {
    if n > 0 {
      PickedFacts(vals, n - 1);
      var ix0 := Picked(vals, n - 1);
      if Writable(vals[n - 1]) {
        var ix := ix0 + [n - 1];
        assert Picked(vals, n) == ix;
        forall a | 0 <= a < |ix|
          ensures Writable(vals[ix[a]])
        {
          if a < |ix0| {
            assert ix[a] == ix0[a];
          } else {
            assert ix[a] == n - 1;
          }
        }
        forall a, b | 0 <= a < b < |ix|
          ensures ix[a] < ix[b]
        {
          assert ix[a] == ix0[a];
          if b < |ix0| {
            assert ix[b] == ix0[b];
          }
        }
        forall j | 0 <= j < n && Writable(vals[j])
          ensures j in ix
        {
          if j < n - 1 {
            var a :| 0 <= a < |ix0| && ix0[a] == j;
            assert ix[a] == j;
          } else {
            assert ix[|ix0|] == j;
          }
        }
      } else {
        assert Picked(vals, n) == ix0 + [] == ix0;
      }
    }
  }

  /** Child `a` is written for position `Picked(vals, n)[a]`, with that
      position's tag and value. */
  lemma {:induction false} EmitPicked(tags: seq<string>, vals: seq<string>, n: nat)
    requires n <= |tags| && n <= |vals|
    ensures var cs, ix := Emit(tags, vals, n), Picked(vals, n);
      && |cs| == |ix|
      && forall a :: 0 <= a < |ix| ==> cs[a] == Child(tags[ix[a]], vals[ix[a]])
  {
    if n > 0 {
      EmitPicked(tags, vals, n - 1);
      var cs0, ix0 := Emit(tags, vals, n - 1), Picked(vals, n - 1);
      var v := vals[n - 1];
      if Writable(v) {
        var cs, ix := cs0 + [Child(tags[n - 1], v)], ix0 + [n - 1];
        assert Emit(tags, vals, n) == cs && Picked(vals, n) == ix;
        forall a | 0 <= a < |ix|
          ensures cs[a] == Child(tags[ix[a]], vals[ix[a]])
        {
          if a < |ix0| {
            assert cs[a] == cs0[a] && ix[a] == ix0[a];
          }
        }
      } else {
        assert Emit(tags, vals, n) == cs0 + [] == cs0;
        assert Picked(vals, n) == ix0 + [] == ix0;
      }
    }
  }

  /** EmitUpTo is Emit over the write order and the form's values. */
  lemma {:induction false} EmitUpToIsEmit(m: Meta, n: nat)
    requires n <= |Tags|
    ensures EmitUpTo(m, n) == Emit(Tags, TagValues(m), n)
  {
    if n > 0 {
      EmitUpToIsEmit(m, n - 1);
    }
  }

  /** The children come in strictly increasing write order, each carries
      the value of its source key, and that value is writable. */
  lemma EmitUpToContent(m: Meta, n: nat)
    requires n <= |Tags|
    ensures var cs := EmitUpTo(m, n);
      && (forall a, b :: 0 <= a < b < |cs| ==> Rank(cs[a].tag) < Rank(cs[b].tag))
      && (forall a :: 0 <= a < |cs| ==> Rank(cs[a].tag) < n && cs[a].tag == Tags[Rank(cs[a].tag)])
      && (forall a :: 0 <= a < |cs| ==> cs[a].text == Get(m, SourceKey(cs[a].tag)) && Writable(cs[a].text))
  {
    EmitUpToIsEmit(m, n);
    EmitPicked(Tags, TagValues(m), n);
    PickedFacts(TagValues(m), n);
    RankOfTags();
    var cs, ix := EmitUpTo(m, n), Picked(TagValues(m), n);
    forall a | 0 <= a < |cs|
      ensures Rank(cs[a].tag) == ix[a]
    {
      assert cs[a].tag == Tags[ix[a]];
    }
  }

  /** Every tag below `n` whose value is writable has a child. */
  lemma EmitUpToCovers(m: Meta, n: nat)
    requires n <= |Tags|
    ensures var cs := EmitUpTo(m, n);
      forall j :: 0 <= j < n && Writable(Get(m, SourceKey(Tags[j]))) ==>
        exists a :: 0 <= a < |cs| && cs[a].tag == Tags[j]
  {
    EmitUpToIsEmit(m, n);
    EmitPicked(Tags, TagValues(m), n);
    PickedFacts(TagValues(m), n);
    var cs, ix := EmitUpTo(m, n), Picked(TagValues(m), n);
    forall j | 0 <= j < n && Writable(Get(m, SourceKey(Tags[j])))
      ensures exists a :: 0 <= a < |cs| && cs[a].tag == Tags[j]
    {
      var a :| 0 <= a < |ix| && ix[a] == j;
      assert cs[a].tag == Tags[j];
    }
  }

  /** Serialising writes a ComicInfo root whose children follow the fixed
      order SeriesGroup, Series, Title, Volume, Number, Year, Month, Day,
      Penciller, Inker, each at most once; a tag is written exactly when its
      value is neither empty nor the mixed-value marker, with that value as
      text; Penciller and Inker both carry Author. */
  lemma BuildXmlShape(m: Meta)
    ensures var root := BuildXml(m);
      var cs := root.children;
      && root.tag == "ComicInfo"
      && (forall a, b :: 0 <= a < b < |cs| ==> Rank(cs[a].tag) < Rank(cs[b].tag))
      && (forall a :: 0 <= a < |cs| ==>
            cs[a].tag in Tags && cs[a].text == Get(m, SourceKey(cs[a].tag)) && Writable(cs[a].text))
      && (forall t :: t in Tags ==>
            (Writable(Get(m, SourceKey(t))) <==> exists a :: 0 <= a < |cs| && cs[a].tag == t))
  {
    BuildXmlIsEmit(m);
    EmitUpToContent(m, 10);
    EmitUpToCovers(m, 10);
    RankOfTags();
    var cs := BuildXml(m).children;
    forall t | t in Tags && Writable(Get(m, SourceKey(t)))
      ensures exists a :: 0 <= a < |cs| && cs[a].tag == t
    {
      var j := Rank(t);
      assert Tags[j] == t;
    }
  }

  /** What parsing finds under a serialised descriptor, tag by tag. */
  lemma FirstTextOfBuild(m: Meta, t: string)
    requires t in Tags
    ensures FirstText(BuildXml(m), t) == Stored(m, SourceKey(t))
  {
    BuildXmlShape(m);
    var cs := BuildXml(m).children;
    match Find(cs, t)
    case None =>
    case Some(i) =>
  }

  /** ParseMeta key by key. */
  lemma ParseMetaAt(root: Element, k: string)
    ensures var p := ParseMeta(root);
      && Get(p, k) == (if k == "Author" then
                         (if FirstText(root, "Penciller") != "" then FirstText(root, "Penciller")
                          else FirstText(root, "Inker"))
                       else if k in Tags then FirstText(root, k)
                       else "")
      && (k in p <==> Get(p, k) != "")
  {
    if k == "Author" {
      KeysAndTags();
      ParseFoldsAuthor(root);
    } else if k in Tags {
      ParseTagKey(root, k);
    } else {
      assert k !in Found(root);
    }
  }

  /** The form keys other than Author are tags carrying their own value,
      and the tags are form keys or carry Author. */
  lemma KeysAndTags()
    ensures forall k :: k in FieldKeys && k != "Author" ==> k in Tags && SourceKey(k) == k
    ensures forall t :: t in Tags ==> t in FieldKeys || t == "Penciller" || t == "Inker"
    ensures "Author" !in Tags && "Penciller" in Tags && "Inker" in Tags
  {
  }

  /** Round trip: parsing a serialised descriptor gives back every form field
      whose value is neither empty nor the mixed-value marker, Author
      included, and drops the others; Penciller and Inker come back holding
      Author, and nothing else is set. */
  lemma RoundTrip(m: Meta)
    ensures var p := ParseMeta(BuildXml(m));
      && (forall k :: k in FieldKeys ==> Get(p, k) == Stored(m, k) && (k in p <==> Writable(Get(m, k))))
      && Get(p, "Penciller") == Stored(m, "Author")
      && Get(p, "Inker") == Stored(m, "Author")
      && (forall k :: k in p ==> k in FieldKeys || k == "Penciller" || k == "Inker")
  {
    var root := BuildXml(m);
    var p := ParseMeta(root);
    KeysAndTags();
    FirstTextOfBuild(m, "Penciller");
    FirstTextOfBuild(m, "Inker");
    forall k | k in FieldKeys
      ensures Get(p, k) == Stored(m, k) && (k in p <==> Writable(Get(m, k)))
    {
      ParseMetaAt(root, k);
      if k != "Author" {
        FirstTextOfBuild(m, k);
      }
    }
    ParseMetaAt(root, "Penciller");
    ParseMetaAt(root, "Inker");
    ParseTakesFirstMatch(root);
  }

  /** EmitUpTo depends only on the stored values of the source keys. */
  lemma {:induction false} EmitUpToStored(m1: Meta, m2: Meta, n: nat)
    requires n <= |Tags|
    requires forall j :: 0 <= j < n ==> Stored(m1, SourceKey(Tags[j])) == Stored(m2, SourceKey(Tags[j]))
    ensures EmitUpTo(m1, n) == EmitUpTo(m2, n)
  {
    if n > 0 {
      EmitUpToStored(m1, m2, n - 1);
      EmitUpToStep(m1, n);
      EmitUpToStep(m2, n);
    }
  }

  /** Two descriptors serialise alike exactly when they agree on the stored
      value of every form field. */
  lemma BuildXmlDeterminedByStored(m1: Meta, m2: Meta)
    ensures BuildXml(m1) == BuildXml(m2) <==> forall k :: k in FieldKeys ==> Stored(m1, k) == Stored(m2, k)
  {
    if BuildXml(m1) == BuildXml(m2) {
      RoundTrip(m1);
      RoundTrip(m2);
    }
    if forall k :: k in FieldKeys ==> Stored(m1, k) == Stored(m2, k) {
      KeysAndTags();
      SourceKeys();
      forall j | 0 <= j < |Tags|
        ensures Stored(m1, SourceKey(Tags[j])) == Stored(m2, SourceKey(Tags[j]))
      {
        assert SourceKey(Tags[j]) in FieldKeys;
      }
      EmitUpToStored(m1, m2, |Tags|);
      BuildXmlIsEmit(m1);
      BuildXmlIsEmit(m2);
    }
  }
}
