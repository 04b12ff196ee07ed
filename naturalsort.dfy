/**
  The natural file-name order used when the record list is sorted: a name is
  split into runs of digits and runs of non-digits (`re.split(r"(\d+)", s)`),
  digit runs become integers and the other runs are lower-cased, and the
  resulting tuples are compared the way Python compares tuples.
 */
module NaturalSort {
  import opened Ascii

  /** One element of the tuple `natural_key` builds: a text run or a number. */
  datatype Part = Text(s: string) | Num(n: nat)

  type Key = seq<Part>

  predicate NoDigits(p: string) {
    forall i :: 0 <= i < |p| ==> !IsDigit(p[i])
  }

  /** Length of the longest prefix of `s` whose characters are digits (when
      `digits`) or non-digits (when not). */
  function RunLen(s: string, digits: bool): (n: nat)
    ensures n <= |s|
    ensures forall i :: 0 <= i < n ==> IsDigit(s[i]) == digits
    ensures n < |s| ==> IsDigit(s[n]) != digits
  {
    if s == [] || IsDigit(s[0]) != digits then 0 else 1 + RunLen(s[1..], digits)
  }

  /** `re.split(r"(\d+)", s)`: non-digit runs at the even positions, the
      captured digit runs at the odd positions. */
  function SplitDigits(s: string): (parts: seq<string>)
    decreases |s|
  {
    var t := RunLen(s, false);
    if t == |s| then [s]
    else
      var d := RunLen(s[t..], true);
      assert d > 0 by { assert IsDigit(s[t..][0]); }
      [s[..t], s[t..t + d]] + SplitDigits(s[t + d..])
  }

  function Concat(parts: seq<string>): string {
    if parts == [] then [] else parts[0] + Concat(parts[1..])
  }

  /** The shape `re.split` with one capturing group promises: an odd number
      of pieces, the pieces at even positions hold no digit and only the first
      and last of them may be empty, the pieces at odd positions are whole
      digit runs. */
  predicate Alternating(parts: seq<string>) {
    && |parts| % 2 == 1
    && (forall i :: 0 <= i < |parts| && i % 2 == 0 ==> NoDigits(parts[i]))
    && (forall i :: 0 <= i < |parts| && i % 2 == 1 ==> AllDigits(parts[i]))
    && (forall i :: 0 < i < |parts| - 1 && i % 2 == 0 ==> parts[i] != [])
  }

  /** Putting a non-digit piece and a digit run in front of a split whose
      first piece does not start with a digit keeps the shape. */
  lemma AlternatingCons(a: string, b: string, tail: seq<string>)
    requires NoDigits(a) && AllDigits(b) && Alternating(tail)
    requires tail[0] == [] ==> |tail| == 1
    ensures Alternating([a, b] + tail)
  {
    var parts := [a, b] + tail;
    forall i | 0 <= i < |parts| && i >= 2
      ensures parts[i] == tail[i - 2]
    {
    }
  }

  lemma ConcatCons(a: string, b: string, tail: seq<string>)
    ensures Concat([a, b] + tail) == a + (b + Concat(tail))
  {
    var parts := [a, b] + tail;
    assert parts[1..][1..] == tail;
  }

  /** One unfolding of SplitDigits where the name holds a digit. */
  lemma SplitDigitsStep(s: string, t: nat, d: nat)
    requires t == RunLen(s, false) < |s|
    requires d == RunLen(s[t..], true) && t + d <= |s|
    ensures SplitDigits(s) == [s[..t], s[t..t + d]] + SplitDigits(s[t + d..])
  {
  }

  /** The pieces of that unfolding: a non-digit run, a digit run, and a
      remainder that does not start with a digit. */
  lemma {:induction false} SplitDigitsRuns(s: string, t: nat, d: nat)
    requires t == RunLen(s, false) < |s|
    requires d == RunLen(s[t..], true)
    ensures 0 < d && t + d <= |s|
    ensures NoDigits(s[..t]) && AllDigits(s[t..t + d])
    ensures s[t + d..] != [] ==> !IsDigit(s[t + d..][0])
    ensures s == s[..t] + (s[t..t + d] + s[t + d..])
  {
    var rest := s[t..];
    assert IsDigit(rest[0]);
    var head, run := s[..t], s[t..t + d];
    forall i | 0 <= i < t
      ensures !IsDigit(head[i])
    {
      assert head[i] == s[i];
    }
    forall i | 0 <= i < d
      ensures IsDigit(run[i])
    {
      assert run[i] == rest[i];
    }
    if s[t + d..] != [] {
      assert s[t + d..][0] == rest[d];
    }
    assert rest == s[t..t + d] + s[t + d..];
    assert s == s[..t] + rest;
  }

  /** What `re.split` promises: the pieces put back together give the name,
      and they alternate non-digit text and digit runs. */
  lemma {:induction false} SplitDigitsShape(s: string)
    ensures Alternating(SplitDigits(s))
    ensures Concat(SplitDigits(s)) == s
    ensures SplitDigits(s)[0] == [] ==> s == [] || IsDigit(s[0])
    decreases |s|
  {
    var t := RunLen(s, false);
    if t == |s| {
      assert SplitDigits(s) == [s];
      assert Concat([s]) == s + Concat([]);
    } else {
      var d := RunLen(s[t..], true);
      SplitDigitsRuns(s, t, d);
      SplitDigitsStep(s, t, d);
      var rest := s[t + d..];
      SplitDigitsShape(rest);
      var tail := SplitDigits(rest);
      AlternatingCons(s[..t], s[t..t + d], tail);
      ConcatCons(s[..t], s[t..t + d], tail);
    }
  }

  /** `int(p)` for a run of ASCII digits. */
  function DigitsValue(p: string): nat
    requires forall i :: 0 <= i < |p| ==> IsDigit(p[i])
  {
    if p == [] then 0
    else
      assert IsDigit(p[|p| - 1]);
      10 * DigitsValue(p[..|p| - 1]) + (p[|p| - 1] as int - '0' as int)
  }

  /** One step of `natural_key`'s loop: `int(p)` if `p.isdigit()`, else `p.lower()`. */
  function KeyPart(p: string): Part {
    if AllDigits(p) then Num(DigitsValue(p)) else Text(Lower(p))
  }

  /** The key parts of the pieces, in order. */
  function KeyParts(parts: seq<string>): (k: Key)
    ensures |k| == |parts|
  {
    if parts == [] then [] else KeyParts(parts[..|parts| - 1]) + [KeyPart(parts[|parts| - 1])]
  }

  lemma {:induction false} KeyPartsAt(parts: seq<string>, i: nat)
    requires i < |parts|
    ensures KeyParts(parts)[i] == KeyPart(parts[i])
  {
    if i < |parts| - 1 {
      KeyPartsAt(parts[..|parts| - 1], i);
    }
  }

  /** `natural_key(s)`. */
  function NaturalKey(s: string): Key {
    KeyParts(SplitDigits(s))
  }

  /** The key alternates lower-cased text runs (even positions) and the
      integer values of digit runs (odd positions), so two keys compared
      position by position never compare a text with a number. */
  lemma NaturalKeyAlternates(s: string)
    ensures var parts, k := SplitDigits(s), NaturalKey(s);
      && |k| == |parts| && |k| % 2 == 1
      && (forall i :: 0 <= i < |k| && i % 2 == 0 ==> k[i] == Text(Lower(parts[i])))
      && (forall i :: 0 <= i < |k| && i % 2 == 1 ==>
            AllDigits(parts[i]) && k[i] == Num(DigitsValue(parts[i])))
  {
    SplitDigitsShape(s);
    var parts := SplitDigits(s);
    forall i | 0 <= i < |parts|
      ensures NaturalKey(s)[i] == KeyPart(parts[i])
    {
      KeyPartsAt(parts, i);
    }
  }

  /** The loop of `natural_key` over the pieces `re.split` returns. */
  method NaturalKeyOf(s: string) returns (key: Key)
    ensures key == NaturalKey(s)
  {
    var parts := SplitDigits(s);
    key := [];
    for i := 0 to |parts|
      invariant key == KeyParts(parts[..i])
    {
      var p := parts[i];
      assert parts[..i + 1][..i] == parts[..i];
      if AllDigits(p) {
        key := key + [Num(DigitsValue(p))];
      } else {
        key := key + [Text(Lower(p))];
      }
    }
    assert parts[..|parts|] == parts;
  }

  // ---------------------------------------------------------------------
  // Python's ordering of `str` (by code point) and of tuples (first
  // differing element decides, a proper prefix is smaller).
  // ---------------------------------------------------------------------

  function StrLess(a: string, b: string): bool {
    if a == [] then b != []
    else if b == [] then false
    else if a[0] != b[0] then a[0] < b[0]
    else StrLess(a[1..], b[1..])
  }

  /** Comparison of two tuple elements. A text never meets a number at the
      same position (NaturalKeyAlternates); for completeness a text is put
      before a number, which keeps the order total. */
  function PartLess(x: Part, y: Part): bool {
    match (x, y)
    case (Text(a), Text(b)) => StrLess(a, b)
    case (Num(m), Num(n)) => m < n
    case (Text(_), Num(_)) => true
    case (Num(_), Text(_)) => false
  }

  function KeyLess(a: Key, b: Key): bool {
    if a == [] then b != []
    else if b == [] then false
    else if a[0] != b[0] then PartLess(a[0], b[0])
    else KeyLess(a[1..], b[1..])
  }

  lemma {:induction false} StrLessIrreflexive(a: string)
    ensures !StrLess(a, a)
  {
    if a != [] { StrLessIrreflexive(a[1..]); }
  }

  lemma {:induction false} StrLessTransitive(a: string, b: string, c: string)
    requires StrLess(a, b) && StrLess(b, c)
    ensures StrLess(a, c)
  {
    if a != [] && b != [] && c != [] && a[0] == b[0] == c[0] {
      StrLessTransitive(a[1..], b[1..], c[1..]);
    }
  }

  lemma {:induction false} StrLessTotal(a: string, b: string)
    ensures a == b || StrLess(a, b) || StrLess(b, a)
  {
    if a != [] && b != [] && a[0] == b[0] {
      StrLessTotal(a[1..], b[1..]);
      if a[1..] == b[1..] {
        assert a == [a[0]] + a[1..] && b == [b[0]] + b[1..];
      }
    }
  }

  lemma {:induction false} StrLessAsymmetric(a: string, b: string)
    ensures !(StrLess(a, b) && StrLess(b, a))
  {
    if a != [] && b != [] && a[0] == b[0] {
      StrLessAsymmetric(a[1..], b[1..]);
    }
  }

  lemma PartLessStrict(x: Part, y: Part, z: Part)
    ensures !PartLess(x, x)
    ensures !(PartLess(x, y) && PartLess(y, x))
    ensures PartLess(x, y) && PartLess(y, z) ==> PartLess(x, z)
    ensures x == y || PartLess(x, y) || PartLess(y, x)
  {
    if x.Text? { StrLessIrreflexive(x.s); }
    if x.Text? && y.Text? {
      StrLessAsymmetric(x.s, y.s);
      StrLessTotal(x.s, y.s);
      if z.Text? && PartLess(x, y) && PartLess(y, z) {
        StrLessTransitive(x.s, y.s, z.s);
      }
    }
  }

  lemma {:induction false} KeyLessIrreflexive(a: Key)
    ensures !KeyLess(a, a)
  {
    if a != [] { KeyLessIrreflexive(a[1..]); }
  }

  lemma {:induction false} KeyLessTransitive(a: Key, b: Key, c: Key)
    requires KeyLess(a, b) && KeyLess(b, c)
    ensures KeyLess(a, c)
  {
    if a != [] && b != [] && c != [] {
      PartLessStrict(a[0], b[0], c[0]);
      if a[0] == b[0] && b[0] == c[0] {
        KeyLessTransitive(a[1..], b[1..], c[1..]);
      }
    }
  }

  lemma {:induction false} KeyLessTotal(a: Key, b: Key)
    ensures a == b || KeyLess(a, b) || KeyLess(b, a)
  {
    if a != [] && b != [] {
      PartLessStrict(a[0], b[0], b[0]);
      if a[0] == b[0] {
        KeyLessTotal(a[1..], b[1..]);
        if a[1..] == b[1..] {
          assert a == [a[0]] + a[1..] && b == [b[0]] + b[1..];
        }
      }
    }
  }

  lemma {:induction false} KeyLessAsymmetric(a: Key, b: Key)
    ensures !(KeyLess(a, b) && KeyLess(b, a))
  {
    if a != [] && b != [] {
      PartLessStrict(a[0], b[0], b[0]);
      if a[0] == b[0] {
        KeyLessAsymmetric(a[1..], b[1..]);
      }
    }
  }

  /** "Not greater" is transitive: the fact insertion sort relies on. */
  lemma KeyNotGreaterTransitive(a: Key, b: Key, c: Key)
    requires !KeyLess(b, a) && !KeyLess(c, b)
    ensures !KeyLess(c, a)
  {
    KeyLessTotal(a, b);
    if KeyLess(c, a) {
      if a == b {
      } else {
        KeyLessTransitive(c, a, b);
      }
    }
  }

  /** A list of keys in the order `list.sort` leaves them. */
  predicate SortedKeys(ks: seq<Key>) {
    forall i, j :: 0 <= i < j < |ks| ==> !KeyLess(ks[j], ks[i])
  }

  // ---------------------------------------------------------------------
  // `list.sort` with a key: a stable sort on precomputed keys.
  // ---------------------------------------------------------------------

  ghost predicate Distinct<T>(s: seq<T>) {
    forall i, j :: 0 <= i < j < |s| ==> s[i] != s[j]
  }

  /** The list with positions j - 1 and j exchanged. */
  function Swap<T>(s: seq<T>, j: nat): (r: seq<T>)
    requires 0 < j < |s|
    ensures |r| == |s| && r[j - 1] == s[j] && r[j] == s[j - 1]
    ensures forall k :: 0 <= k < |s| && k != j - 1 && k != j ==> r[k] == s[k]
  {
    s[j - 1 := s[j]][j := s[j - 1]]
  }

  lemma SwapKeeps<T>(s: seq<T>, j: nat)
    requires 0 < j < |s|
    ensures multiset(Swap(s, j)) == multiset(s)
    ensures Distinct(s) ==> Distinct(Swap(s, j))
  {
    var r := Swap(s, j);
    assert r == s[..j - 1] + [s[j], s[j - 1]] + s[j + 1..];
    assert s == s[..j - 1] + [s[j - 1], s[j]] + s[j + 1..];
    if Distinct(s) {
      forall a, b | 0 <= a < b < |r|
        ensures r[a] != r[b]
      {
        var a' := if a == j - 1 then j else if a == j then j - 1 else a;
        var b' := if b == j - 1 then j else if b == j then j - 1 else b;
        assert r[a] == s[a'] && r[b] == s[b'] && a' != b';
      }
    }
  }

  /** Picking the items of a list by distinct positions keeps them distinct. */
  lemma PermutedDistinct<U>(us: seq<U>, vs: seq<U>, perm: seq<nat>)
    requires |vs| == |perm| && Distinct(perm)
    requires forall a :: 0 <= a < |perm| ==> perm[a] < |us| && vs[a] == us[perm[a]]
    ensures Distinct(us) ==> Distinct(vs)
  {
    if Distinct(us) {
      forall a, b | 0 <= a < b < |vs|
        ensures vs[a] != vs[b]
      {
        if perm[a] < perm[b] {
          assert us[perm[a]] != us[perm[b]];
        } else {
          assert perm[b] < perm[a];
          assert us[perm[b]] != us[perm[a]];
        }
      }
    }
  }

  /** `ys` and `ls` are the items and keys `xs` and `ks` rearranged by
      `perm`: item and key move together, nothing is lost or repeated. */
  ghost predicate Tracks<T>(xs: seq<T>, ks: seq<Key>, ys: seq<T>, ls: seq<Key>, perm: seq<nat>) {
    && |ys| == |ls| == |perm| == |xs| == |ks|
    && Distinct(perm)
    && (forall a :: 0 <= a < |perm| ==> perm[a] < |xs| && ys[a] == xs[perm[a]] && ls[a] == ks[perm[a]])
    && multiset(ys) == multiset(xs)
  }

  lemma TracksSwap<T>(xs: seq<T>, ks: seq<Key>, ys: seq<T>, ls: seq<Key>, perm: seq<nat>, j: nat)
    requires Tracks(xs, ks, ys, ls, perm) && 0 < j < |ys|
    ensures Tracks(xs, ks, Swap(ys, j), Swap(ls, j), Swap(perm, j))
  {
    SwapKeeps(ys, j);
    SwapKeeps(perm, j);
  }

  /** The items of `xs` whose key in `ks` is `k`, in their order in `xs`. */
  function WithKey<T>(xs: seq<T>, ks: seq<Key>, k: Key): seq<T>
    requires |ks| == |xs|
  {
    if xs == [] then [] else (if ks[0] == k then [xs[0]] else []) + WithKey(xs[1..], ks[1..], k)
  }

  /** `ys` keeps the order of `xs` within each key: for every key, the
      items with that key come in the same order in both. */
  ghost predicate SameWithinKeys<T>(ys: seq<T>, ls: seq<Key>, xs: seq<T>, ks: seq<Key>)
    requires |ls| == |ys| && |ks| == |xs|
  {
    forall k :: WithKey(ys, ls, k) == WithKey(xs, ks, k)
  }

  lemma {:induction false} WithKeyAppend<T>(xs: seq<T>, ks: seq<Key>, ys: seq<T>, ls: seq<Key>, k: Key)
    requires |ks| == |xs| && |ls| == |ys|
    ensures WithKey(xs + ys, ks + ls, k) == WithKey(xs, ks, k) + WithKey(ys, ls, k)
  {
    if xs == [] {
      assert xs + ys == ys && ks + ls == ls;
    } else {
      var zs, ms := xs + ys, ks + ls;
      assert zs[0] == xs[0] && ms[0] == ks[0];
      assert zs[1..] == xs[1..] + ys && ms[1..] == ks[1..] + ls;
      WithKeyAppend(xs[1..], ks[1..], ys, ls, k);
      var head := if ks[0] == k then [xs[0]] else [];
      assert WithKey(zs, ms, k) == head + WithKey(zs[1..], ms[1..], k);
      assert WithKey(xs, ks, k) == head + WithKey(xs[1..], ks[1..], k);
    }
  }

  /** Two neighbours with different keys: for any one key at most one of
      them is picked, so their order does not matter. */
  lemma WithKeyPair<T>(x: T, y: T, kx: Key, ky: Key, k: Key)
    requires kx != ky
    ensures WithKey([y, x], [ky, kx], k) == WithKey([x, y], [kx, ky], k)
  {
    assert [x, y][1..] == [y] && [kx, ky][1..] == [ky];
    assert [y, x][1..] == [x] && [ky, kx][1..] == [kx];
  }

  lemma {:induction false} WithKeySwapAt<T>(ys: seq<T>, ls: seq<Key>, j: nat, k: Key)
    requires |ls| == |ys| && 0 < j < |ys| && ls[j - 1] != ls[j]
    ensures WithKey(Swap(ys, j), Swap(ls, j), k) == WithKey(ys, ls, k)
  {
    var yp, ys2, yq := ys[..j - 1], [ys[j - 1], ys[j]], ys[j + 1..];
    var lp, ls2, lq := ls[..j - 1], [ls[j - 1], ls[j]], ls[j + 1..];
    var yr, lr := [ys[j], ys[j - 1]], [ls[j], ls[j - 1]];
    assert ys == yp + ys2 + yq && ls == lp + ls2 + lq;
    assert Swap(ys, j) == yp + yr + yq && Swap(ls, j) == lp + lr + lq;
    WithKeyAppend(yp + ys2, lp + ls2, yq, lq, k);
    WithKeyAppend(yp, lp, ys2, ls2, k);
    WithKeyAppend(yp + yr, lp + lr, yq, lq, k);
    WithKeyAppend(yp, lp, yr, lr, k);
    WithKeyPair(ys[j - 1], ys[j], ls[j - 1], ls[j], k);
  }

  /** Exchanging two neighbours with different keys changes, for no key, the
      order of the items with that key. */
  lemma WithKeySwap<T>(ys: seq<T>, ls: seq<Key>, j: nat)
    requires |ls| == |ys| && 0 < j < |ys| && ls[j - 1] != ls[j]
    ensures forall k :: WithKey(Swap(ys, j), Swap(ls, j), k) == WithKey(ys, ls, k)
  {
    forall k
      ensures WithKey(Swap(ys, j), Swap(ls, j), k) == WithKey(ys, ls, k)
    {
      WithKeySwapAt(ys, ls, j, k);
    }
  }

  /** The order side of one insertion pass among positions `0..i`: apart
      from the moving item at `j`, the prefix is in key order, and the items
      the moving one has passed have strictly greater keys. */
  ghost predicate Passing(ls: seq<Key>, i: nat, j: nat) {
    && i < |ls| && j <= i
    && (forall a, b :: 0 <= a < b <= i && a != j && b != j ==> !KeyLess(ls[b], ls[a]))
    && (forall b :: j < b <= i ==> KeyLess(ls[j], ls[b]))
  }

  lemma PassingSwap(ls: seq<Key>, i: nat, j: nat)
    requires Passing(ls, i, j) && 0 < j && KeyLess(ls[j], ls[j - 1])
    ensures Passing(Swap(ls, j), i, j - 1)
  {
    var ls' := Swap(ls, j);
    forall a, b | 0 <= a < b <= i && a != j - 1 && b != j - 1
      ensures !KeyLess(ls'[b], ls'[a])
    {
      var a' := if a == j then j - 1 else a;
      var b' := if b == j then j - 1 else b;
      assert a' < b' && a' != j && b' != j;
      assert ls'[a] == ls[a'] && ls'[b] == ls[b'];
    }
  }

  /** When the pass stops, the prefix `0..i` is in key order. */
  lemma PassingStops(ls: seq<Key>, i: nat, j: nat)
    requires Passing(ls, i, j)
    requires j == 0 || !KeyLess(ls[j], ls[j - 1])
    ensures forall a, b :: 0 <= a < b <= i ==> !KeyLess(ls[b], ls[a])
  {
    forall a, b | 0 <= a < b <= i
      ensures !KeyLess(ls[b], ls[a])
    {
      if b == j && a < j - 1 {
        KeyNotGreaterTransitive(ls[a], ls[j - 1], ls[j]);
      } else if a == j {
        KeyLessAsymmetric(ls[j], ls[b]);
      }
    }
  }

  /** `list.sort(key=...)` on keys computed beforehand: the result is a
      rearrangement of the items, in key order, and the sort is stable: for
      every key, the items with that key come in the order they had. */
  method SortByKey<T>(xs: seq<T>, ks: seq<Key>) returns (ys: seq<T>, ls: seq<Key>, ghost perm: seq<nat>)
    requires |ks| == |xs|
    ensures Tracks(xs, ks, ys, ls, perm)
    ensures SortedKeys(ls)
    ensures SameWithinKeys(ys, ls, xs, ks)
  {
    ys, ls := xs, ks;
    perm := seq(|xs|, a => a);
    for i := 0 to |ys|
      invariant Tracks(xs, ks, ys, ls, perm)
      invariant forall a, b :: 0 <= a < b < i ==> !KeyLess(ls[b], ls[a])
      invariant SameWithinKeys(ys, ls, xs, ks)
    {
      ys, ls, perm := InsertLast(xs, ks, ys, ls, perm, i);
    }
  }

  /** One pass of insertion sort: the item at position `i` moves left past
      the items before it whose key is strictly greater.  It never passes an
      item with the same key, so for every key the items with that key stay
      in the same order. */
  method InsertLast<T>(ghost xs: seq<T>, ghost ks: seq<Key>, ys0: seq<T>, ls0: seq<Key>, ghost perm0: seq<nat>, i: nat)
    returns (ys: seq<T>, ls: seq<Key>, ghost perm: seq<nat>)
    requires Tracks(xs, ks, ys0, ls0, perm0) && i < |ys0|
    requires forall a, b :: 0 <= a < b < i ==> !KeyLess(ls0[b], ls0[a])
    ensures Tracks(xs, ks, ys, ls, perm)
    ensures forall a, b :: 0 <= a < b <= i ==> !KeyLess(ls[b], ls[a])
    ensures SameWithinKeys(ys, ls, ys0, ls0)
  {
    ys, ls, perm := ys0, ls0, perm0;
    var j := i;
    while j > 0 && KeyLess(ls[j], ls[j - 1])
      invariant 0 <= j <= i
      invariant Tracks(xs, ks, ys, ls, perm)
      invariant Passing(ls, i, j)
      invariant SameWithinKeys(ys, ls, ys0, ls0)
    {
      TracksSwap(xs, ks, ys, ls, perm, j);
      PassingSwap(ls, i, j);
      KeyLessIrreflexive(ls[j]);
      WithKeySwap(ys, ls, j);
      ys, ls, perm := Swap(ys, j), Swap(ls, j), Swap(perm, j);
      j := j - 1;
    }
    PassingStops(ls, i, j);
  }
}
