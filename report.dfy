/**
 * The ordering of the diff report written by `exportdifflist`: a stable sort
 * by `difftype`, `itertools.groupby` on that key, and within each group a
 * stable sort by title.  Keys are compared as Python compares `str`.
 */
module Report {
  import opened Text
  import opened Movies

  /** The two sort keys: the `difftype` string and the movie title. */
  function KindKey(r: FindResult): string {
    r.kind.Name()
  }

  function TitleKey(r: FindResult): string {
    r.movie.title
  }

  ghost predicate SortedBy(s: seq<FindResult>, key: FindResult -> string) {
    forall i, j :: 0 <= i < j < |s| ==> LexLe(key(s[i]), key(s[j]))
  }

  /** The entries of `s` whose key is `k`, in order. */
  function FilterKey(s: seq<FindResult>, key: FindResult -> string, k: string): (r: seq<FindResult>)
    ensures forall e <- r :: key(e) == k
  {
    if s == [] then [] else (if key(s[0]) == k then [s[0]] else []) + FilterKey(s[1..], key, k)
  }

  lemma {:induction false} FilterKeyAppend(a: seq<FindResult>, b: seq<FindResult>, key: FindResult -> string, k: string)
    ensures FilterKey(a + b, key, k) == FilterKey(a, key, k) + FilterKey(b, key, k)
  {
    if a != [] {
      assert (a + b)[1..] == a[1..] + b;
      FilterKeyAppend(a[1..], b, key, k);
    } else {
      assert a + b == b;
    }
  }

  lemma {:induction false} FilterKeyNone(s: seq<FindResult>, key: FindResult -> string, k: string)
    requires forall e <- s :: key(e) != k
    ensures FilterKey(s, key, k) == []
  {
    if s != [] {
      FilterKeyNone(s[1..], key, k);
    }
  }

  lemma {:induction false} FilterKeyAll(s: seq<FindResult>, key: FindResult -> string, k: string)
    requires forall e <- s :: key(e) == k
    ensures FilterKey(s, key, k) == s
  {
    if s != [] {
      FilterKeyAll(s[1..], key, k);
      assert s == [s[0]] + s[1..];
    }
  }

  /** Insertion that keeps `x` in front of the entries with an equal key. */
  function Insert(x: FindResult, s: seq<FindResult>, key: FindResult -> string): (r: seq<FindResult>)
    ensures multiset(r) == multiset(s) + multiset{x}
  {
    if s == [] || LexLe(key(x), key(s[0])) then [x] + s
    else
      assert s == [s[0]] + s[1..];
      [s[0]] + Insert(x, s[1..], key)
  }

  /** Python's `sorted(s, key=key)`: a stable sort. */
  function SortBy(s: seq<FindResult>, key: FindResult -> string): (r: seq<FindResult>)
    ensures multiset(r) == multiset(s)
  {
    if s == [] then []
    else
      assert s == [s[0]] + s[1..];
      Insert(s[0], SortBy(s[1..], key), key)
  }

  /** An entry no greater than any entry of a sorted list can go in front of it. */
  lemma SortedCons(x: FindResult, s: seq<FindResult>, key: FindResult -> string)
    requires SortedBy(s, key)
    requires forall y <- s :: LexLe(key(x), key(y))
    ensures SortedBy([x] + s, key)
  {
    var r := [x] + s;
    forall i, j | 0 <= i < j < |r| ensures LexLe(key(r[i]), key(r[j])) {
      assert r[j] == s[j - 1];
      if i > 0 {
        assert r[i] == s[i - 1];
      } else {
        assert s[j - 1] in s;
      }
    }
  }

  /** Every entry of a sorted list is at least its head. */
  lemma SortedHeadIsLeast(s: seq<FindResult>, key: FindResult -> string)
    requires SortedBy(s, key) && s != []
    ensures forall y <- s :: LexLe(key(s[0]), key(y))
  {
    forall y <- s ensures LexLe(key(s[0]), key(y)) {
      var j :| 0 <= j < |s| && s[j] == y;
      if j == 0 {
        LexLeReflexive(key(y));
      }
    }
  }

  lemma {:induction false} InsertSorted(x: FindResult, s: seq<FindResult>, key: FindResult -> string)
    requires SortedBy(s, key)
    ensures SortedBy(Insert(x, s, key), key)
  {
    if s == [] {
    } else if LexLe(key(x), key(s[0])) {
      SortedHeadIsLeast(s, key);
      forall y <- s ensures LexLe(key(x), key(y)) {
        LexLeTransitive(key(x), key(s[0]), key(y));
      }
      SortedCons(x, s, key);
    } else {
      var t := s[1..];
      SortedTail(s, key);
      InsertSorted(x, t, key);
      LexLeTotal(key(x), key(s[0]));
      SortedHeadIsLeast(s, key);
      var r' := Insert(x, t, key);
      forall y <- r' ensures LexLe(key(s[0]), key(y)) {
        assert y in multiset(r');
        if y != x {
          assert y in s;
        }
      }
      SortedCons(s[0], r', key);
    }
  }

  /** For every key value, inserting keeps the order of the entries that carry it. */
  lemma {:induction false} InsertStable(x: FindResult, s: seq<FindResult>, key: FindResult -> string, k: string)
    ensures FilterKey(Insert(x, s, key), key, k) == FilterKey([x] + s, key, k)
  {
    if s != [] && !LexLe(key(x), key(s[0])) {
      LexLeReflexive(key(x));
      var t := s[1..];
      var i := Insert(x, t, key);
      assert Insert(x, s, key) == [s[0]] + i;
      InsertStable(x, t, key, k);
      assert s == [s[0]] + t;
      StableStep(x, s[0], t, i, key, k);
    }
  }

  /** Moving `x` behind an entry with another key leaves every key's filter unchanged. */
  lemma StableStep(x: FindResult, y: FindResult, t: seq<FindResult>, i: seq<FindResult>,
                   key: FindResult -> string, k: string)
    requires key(x) != key(y)
    requires FilterKey(i, key, k) == FilterKey([x] + t, key, k)
    ensures FilterKey([y] + i, key, k) == FilterKey([x] + ([y] + t), key, k)
  {
    FilterKeyCons(y, i, key, k);
    FilterKeyCons(x, t, key, k);
    FilterKeyCons(x, [y] + t, key, k);
    FilterKeyCons(y, t, key, k);
    var fx := if key(x) == k then [x] else [];
    var fy := if key(y) == k then [y] else [];
    SwapDisjoint(fx, fy, FilterKey(t, key, k));
  }

  /** Two filter pieces of which one is empty commute. */
  lemma SwapDisjoint(fx: seq<FindResult>, fs: seq<FindResult>, rest: seq<FindResult>)
    requires fx == [] || fs == []
    ensures fs + (fx + rest) == fx + (fs + rest)
  {
    if fx == [] {
      assert fx + rest == rest && fx + (fs + rest) == fs + rest;
    } else {
      assert fs + (fx + rest) == fx + rest && fs + rest == rest;
    }
  }

  lemma FilterKeyCons(x: FindResult, s: seq<FindResult>, key: FindResult -> string, k: string)
    ensures FilterKey([x] + s, key, k) == (if key(x) == k then [x] else []) + FilterKey(s, key, k)
  {
    assert ([x] + s)[1..] == s;
  }

  /**
   * What `sorted` promises: the result is a permutation of the input, it is
   * ordered by the key, and entries with equal keys keep their input order.
   */
  lemma {:induction false} SortByProperties(s: seq<FindResult>, key: FindResult -> string)
    ensures multiset(SortBy(s, key)) == multiset(s)
    ensures SortedBy(SortBy(s, key), key)
    ensures forall k :: FilterKey(SortBy(s, key), key, k) == FilterKey(s, key, k)
  {
    if s != [] {
      var t := SortBy(s[1..], key);
      SortByProperties(s[1..], key);
      InsertSorted(s[0], t, key);
      forall k ensures FilterKey(SortBy(s, key), key, k) == FilterKey(s, key, k) {
        InsertStable(s[0], t, key, k);
        FilterKeyAppend([s[0]], t, key, k);
        FilterKeyAppend([s[0]], s[1..], key, k);
        assert [s[0]] + s[1..] == s;
      }
    }
  }

  /** One group of the report: a key and its entries. */
  datatype Group = Group(key: string, entries: seq<FindResult>)

  /** All entries of a list of groups, in order. */
  function Flatten(groups: seq<Group>): seq<FindResult> {
    if groups == [] then [] else groups[0].entries + Flatten(groups[1..])
  }

  /** `itertools.groupby(s, key)`: the runs of consecutive entries with equal keys. */
  function GroupBy(s: seq<FindResult>, key: FindResult -> string): seq<Group> {
    if s == [] then []
    else
      var rest := GroupBy(s[1..], key);
      if rest != [] && rest[0].key == key(s[0]) then
        [Group(key(s[0]), [s[0]] + rest[0].entries)] + rest[1..]
      else
        [Group(key(s[0]), [s[0]])] + rest
  }

  /**
   * What `groupby` promises: concatenated, the groups give the input back;
   * no group is empty, every entry of a group carries its key, and
   * neighbouring groups have different keys, so every run is maximal.
   */
  lemma GroupByProperties(s: seq<FindResult>, key: FindResult -> string)
    ensures Flatten(GroupBy(s, key)) == s
    ensures forall g <- GroupBy(s, key) :: g.entries != [] && forall e <- g.entries :: key(e) == g.key
    ensures forall i :: 0 <= i < |GroupBy(s, key)| - 1 ==> GroupBy(s, key)[i].key != GroupBy(s, key)[i + 1].key
  {
    GroupByFlatten(s, key);
    GroupByRunsUniform(s, key);
    GroupByRunsMaximal(s, key);
  }

  lemma GroupByHead(s: seq<FindResult>, key: FindResult -> string)
    requires s != []
    ensures GroupBy(s, key) != [] && GroupBy(s, key)[0].key == key(s[0])
  {
  }

  lemma {:induction false} GroupByFlatten(s: seq<FindResult>, key: FindResult -> string)
    ensures Flatten(GroupBy(s, key)) == s
  {
    if s != [] {
      var rest := GroupBy(s[1..], key);
      GroupByFlatten(s[1..], key);
      assert s == [s[0]] + s[1..];
      if rest != [] && rest[0].key == key(s[0]) {
        assert rest == [rest[0]] + rest[1..];
        FlattenMerged(key(s[0]), s[0], rest[0], rest[1..], s[1..]);
      } else {
        FlattenCons(Group(key(s[0]), [s[0]]), rest);
      }
    }
  }

  /** Putting `x` in front of the first group puts it in front of the flattened list. */
  lemma FlattenMerged(k: string, x: FindResult, g: Group, more: seq<Group>, tail: seq<FindResult>)
    requires Flatten([g] + more) == tail
    ensures Flatten([Group(k, [x] + g.entries)] + more) == [x] + tail
  {
    FlattenCons(Group(k, [x] + g.entries), more);
    FlattenCons(g, more);
  }

  lemma FlattenCons(g: Group, rest: seq<Group>)
    ensures Flatten([g] + rest) == g.entries + Flatten(rest)
  {
    assert ([g] + rest)[1..] == rest;
  }

  lemma {:induction false} GroupByRunsUniform(s: seq<FindResult>, key: FindResult -> string)
    ensures forall g <- GroupBy(s, key) :: g.entries != [] && forall e <- g.entries :: key(e) == g.key
  {
    if s != [] {
      var rest := GroupBy(s[1..], key);
      GroupByRunsUniform(s[1..], key);
      var groups := GroupBy(s, key);
      forall g <- groups ensures g.entries != [] && forall e <- g.entries :: key(e) == g.key {
        if g != groups[0] {
          assert g in rest;
        }
      }
    }
  }

  lemma {:induction false} GroupByRunsMaximal(s: seq<FindResult>, key: FindResult -> string)
    ensures forall i :: 0 <= i < |GroupBy(s, key)| - 1 ==> GroupBy(s, key)[i].key != GroupBy(s, key)[i + 1].key
  {
    if s != [] {
      var rest := GroupBy(s[1..], key);
      GroupByRunsMaximal(s[1..], key);
      var groups := GroupBy(s, key);
      if rest != [] && rest[0].key == key(s[0]) {
        forall i | 0 <= i < |groups| - 1 ensures groups[i].key != groups[i + 1].key {
          assert groups[i + 1] == rest[i + 1];
          if i > 0 {
            assert groups[i] == rest[i];
          }
        }
      } else {
        forall i | 0 <= i < |groups| - 1 ensures groups[i].key != groups[i + 1].key {
          assert groups[i + 1] == rest[i];
          if i > 0 {
            assert groups[i] == rest[i - 1];
          }
        }
      }
    }
  }

  /** A leading run that the next entry does not continue becomes its own group. */
  lemma {:induction false} GroupByRun(a: seq<FindResult>, b: seq<FindResult>, key: FindResult -> string, k: string)
    requires a != [] && forall e <- a :: key(e) == k
    requires b != [] ==> key(b[0]) != k
    ensures GroupBy(a + b, key) == [Group(k, a)] + GroupBy(b, key)
  {
    var s := a + b;
    assert s[1..] == a[1..] + b;
    if b != [] {
      GroupByHead(b, key);
    }
    if |a| > 1 {
      GroupByRun(a[1..], b, key, k);
      assert [a[0]] + a[1..] == a;
    } else {
      assert a[1..] + b == b;
      assert a == [a[0]];
    }
  }

  /** Sorting the entries of each group by title, as the report does. */
  function SortEntries(groups: seq<Group>): seq<Group> {
    if groups == [] then []
    else [Group(groups[0].key, SortBy(groups[0].entries, TitleKey))] + SortEntries(groups[1..])
  }

  /** exportdifflist's ordering: sort by difftype, group, sort every group by title. */
  function DiffReport(difflist: seq<FindResult>): seq<Group> {
    SortEntries(GroupBy(SortBy(difflist, KindKey), KindKey))
  }

  /** The entries of one kind, in the order of the diff list. */
  function OfKind(difflist: seq<FindResult>, k: Kind): (r: seq<FindResult>)
    ensures forall e <- r :: e.kind == k
  {
    if difflist == [] then []
    else (if difflist[0].kind == k then [difflist[0]] else []) + OfKind(difflist[1..], k)
  }

  /** Filtering on the `difftype` string selects the same entries as filtering on the kind. */
  lemma {:induction false} OfKindIsFilterKey(s: seq<FindResult>, k: Kind)
    ensures OfKind(s, k) == FilterKey(s, KindKey, k.Name())
  {
    if s != [] {
      NameInjective(s[0].kind, k);
      OfKindIsFilterKey(s[1..], k);
    }
  }

  /** The report section for one kind: absent when no entry has that kind. */
  function Section(difflist: seq<FindResult>, k: Kind): seq<Group> {
    if OfKind(difflist, k) == [] then []
    else [Group(k.Name(), SortBy(OfKind(difflist, k), TitleKey))]
  }

  /** The report per kind: one title-sorted section per kind present, in kind order. */
  function ReportByKind(difflist: seq<FindResult>): seq<Group> {
    Section(difflist, Duplicate) + Section(difflist, New) + Section(difflist, Resolution)
  }

  /** The kind names in ascending string order. */
  lemma KindNamesAscending()
    ensures LexLe("DUPLICATE", "NEW") && !LexLe("NEW", "DUPLICATE")
    ensures LexLe("NEW", "RESOLUTION") && !LexLe("RESOLUTION", "NEW")
    ensures LexLe("DUPLICATE", "RESOLUTION") && !LexLe("RESOLUTION", "DUPLICATE")
  {
  }

  /** Distinct kinds have distinct names. */
  lemma NameInjective(a: Kind, b: Kind)
    ensures a.Name() == b.Name() <==> a == b
  {
  }

  lemma {:induction false} OfKindNone(s: seq<FindResult>, k: Kind)
    requires forall e <- s :: e.kind != k
    ensures OfKind(s, k) == []
  {
    if s != [] {
      OfKindNone(s[1..], k);
    }
  }

  /** How the kind filters see a list that starts with `x`. */
  lemma OfKindCons(x: FindResult, t: seq<FindResult>, k: Kind)
    ensures OfKind([x] + t, k) == (if x.kind == k then [x] else []) + OfKind(t, k)
  {
    assert ([x] + t)[1..] == t;
  }

  /** A list sorted by kind is its duplicates, then its new entries, then its resolution entries. */
  lemma {:induction false} SortedByKindSplits(s: seq<FindResult>)
    requires SortedBy(s, KindKey)
    ensures s == OfKind(s, Duplicate) + OfKind(s, New) + OfKind(s, Resolution)
  {
    if s != [] {
      SortedTail(s, KindKey);
      SortedByKindSplits(s[1..]);
      if s[0].kind != Duplicate {
        NoSmallerKindAfter(s, Duplicate);
      }
      if s[0].kind == Resolution {
        NoSmallerKindAfter(s, New);
      }
      SplitCons(s[0], s[1..]);
      assert [s[0]] + s[1..] == s;
    }
  }

  lemma SortedTail(s: seq<FindResult>, key: FindResult -> string)
    requires SortedBy(s, key) && s != []
    ensures SortedBy(s[1..], key)
  {
    var t := s[1..];
    forall i, j | 0 <= i < j < |t| ensures LexLe(key(t[i]), key(t[j])) {
      assert t[i] == s[i + 1] && t[j] == s[j + 1];
    }
  }

  /** Putting an entry in front of a split list keeps it split, if no earlier kind follows it. */
  lemma SplitCons(x: FindResult, t: seq<FindResult>)
    requires t == OfKind(t, Duplicate) + OfKind(t, New) + OfKind(t, Resolution)
    requires x.kind != Duplicate ==> OfKind(t, Duplicate) == []
    requires x.kind == Resolution ==> OfKind(t, New) == []
    ensures [x] + t == OfKind([x] + t, Duplicate) + OfKind([x] + t, New) + OfKind([x] + t, Resolution)
  {
    var d, n, r := OfKind(t, Duplicate), OfKind(t, New), OfKind(t, Resolution);
    OfKindConsSame(x, t);
    match x.kind
    case Duplicate =>
      OfKindConsOther(x, t, New);
      OfKindConsOther(x, t, Resolution);
      ConsAssociates([x], d, n, r, [x] + d, n, r);
    case New =>
      OfKindConsOther(x, t, Duplicate);
      OfKindConsOther(x, t, Resolution);
      ConsAssociates([x], d, n, r, d, [x] + n, r);
    case Resolution =>
      OfKindConsOther(x, t, Duplicate);
      OfKindConsOther(x, t, New);
      ConsAssociates([x], d, n, r, d, n, [x] + r);
  }

  lemma OfKindConsSame(x: FindResult, t: seq<FindResult>)
    ensures OfKind([x] + t, x.kind) == [x] + OfKind(t, x.kind)
  {
    assert ([x] + t)[1..] == t;
  }

  lemma OfKindConsOther(x: FindResult, t: seq<FindResult>, k: Kind)
    requires x.kind != k
    ensures OfKind([x] + t, k) == OfKind(t, k)
  {
    assert ([x] + t)[1..] == t;
    assert OfKind([x] + t, k) == [] + OfKind(t, k);
  }

  lemma ConsAssociates(x: seq<FindResult>, d: seq<FindResult>, n: seq<FindResult>, r: seq<FindResult>,
                       d': seq<FindResult>, n': seq<FindResult>, r': seq<FindResult>)
    requires (d' == x + d && n' == n && r' == r) || (d == [] && d' == [] && n' == x + n && r' == r)
          || (d == [] && n == [] && d' == [] && n' == [] && r' == x + r)
    ensures x + (d + n + r) == d' + n' + r'
  {
  }

  /** In a list sorted by kind, nothing after a later-kind head has an earlier kind. */
  lemma NoSmallerKindAfter(s: seq<FindResult>, k: Kind)
    requires SortedBy(s, KindKey) && s != []
    requires k == Duplicate || (k == New && s[0].kind == Resolution)
    requires s[0].kind != k
    ensures OfKind(s[1..], k) == []
  {
    var t := s[1..];
    forall e <- t ensures e.kind != k {
      var j :| 0 <= j < |t| && t[j] == e;
      assert s[j + 1] == e;
      assert LexLe(KindKey(s[0]), KindKey(e));
      KindNamesAscending();
    }
    OfKindNone(t, k);
  }

  lemma {:induction false} SortEntriesAppend(a: seq<Group>, b: seq<Group>)
    ensures SortEntries(a + b) == SortEntries(a) + SortEntries(b)
  {
    if a != [] {
      assert (a + b)[1..] == a[1..] + b;
      SortEntriesAppend(a[1..], b);
    } else {
      assert a + b == b;
    }
  }

  /** Sorting the entries of a kind block gives that kind's report section. */
  lemma SortBlock(difflist: seq<FindResult>, k: Kind)
    ensures SortEntries(Block(OfKind(difflist, k), k)) == Section(difflist, k)
  {
    if OfKind(difflist, k) != [] {
      assert Block(OfKind(difflist, k), k)[1..] == [];
    }
  }

  /** The group a block of entries of one kind forms: none when the block is empty. */
  function Block(s: seq<FindResult>, k: Kind): seq<Group> {
    if s == [] then [] else [Group(k.Name(), s)]
  }

  /** A block of one kind that the rest does not continue is grouped on its own. */
  lemma GroupByBlock(a: seq<FindResult>, rest: seq<FindResult>, k: Kind)
    requires forall e <- a :: e.kind == k
    requires rest != [] ==> rest[0].kind != k
    ensures GroupBy(a + rest, KindKey) == Block(a, k) + GroupBy(rest, KindKey)
  {
    if a == [] {
      assert a + rest == rest;
    } else {
      if rest != [] {
        NameInjective(rest[0].kind, k);
      }
      GroupByRun(a, rest, KindKey, k.Name());
    }
  }

  /** Grouping the three kind blocks, in kind order, gives one group per non-empty block. */
  lemma GroupByBlocks(d: seq<FindResult>, n: seq<FindResult>, r: seq<FindResult>)
    requires forall e <- d :: e.kind == Duplicate
    requires forall e <- n :: e.kind == New
    requires forall e <- r :: e.kind == Resolution
    ensures GroupBy(d + n + r, KindKey) == Block(d, Duplicate) + Block(n, New) + Block(r, Resolution)
  {
    var nr := n + r;
    GroupByBlock(r, [], Resolution);
    assert r + [] == r;
    GroupByBlock(n, r, New);
    HeadKind(n, r, Duplicate);
    GroupByBlock(d, nr, Duplicate);
    AppendAssociates(d, n, r);
  }

  lemma AppendAssociates(a: seq<FindResult>, b: seq<FindResult>, c: seq<FindResult>)
    ensures a + b + c == a + (b + c)
  {
  }

  /** The first entry of two concatenated blocks comes from one of them. */
  lemma HeadKind(a: seq<FindResult>, b: seq<FindResult>, k: Kind)
    requires forall e <- a :: e.kind != k
    requires forall e <- b :: e.kind != k
    ensures a + b != [] ==> (a + b)[0].kind != k
  {
    if a == [] {
      assert a + b == b;
    }
  }

  /**
   * The sort-then-groupby pipeline yields exactly the per-kind sections: the
   * DUPLICATE, NEW and RESOLUTION entries of the diff list, each group once,
   * in that order, each sorted by title.
   */
  lemma DiffReportIsByKind(difflist: seq<FindResult>)
    ensures DiffReport(difflist) == ReportByKind(difflist)
  {
    var d, n, r := OfKind(difflist, Duplicate), OfKind(difflist, New), OfKind(difflist, Resolution);
    SortByKindIsBlocks(difflist);
    GroupByBlocks(d, n, r);
    var bd, bn, br := Block(d, Duplicate), Block(n, New), Block(r, Resolution);
    assert DiffReport(difflist) == SortEntries(bd + bn + br);
    SortEntriesAppend(bd + bn, br);
    SortEntriesAppend(bd, bn);
    SortBlock(difflist, Duplicate);
    SortBlock(difflist, New);
    SortBlock(difflist, Resolution);
  }

  /** Sorting by kind lines up the entries of each kind, each block in diff-list order. */
  lemma SortByKindIsBlocks(difflist: seq<FindResult>)
    ensures SortBy(difflist, KindKey) ==
            OfKind(difflist, Duplicate) + OfKind(difflist, New) + OfKind(difflist, Resolution)
  {
    var s := SortBy(difflist, KindKey);
    SortByProperties(difflist, KindKey);
    SortedByKindSplits(s);
    forall k: Kind ensures OfKind(s, k) == OfKind(difflist, k) {
      OfKindIsFilterKey(s, k);
      OfKindIsFilterKey(difflist, k);
    }
  }

  /**
   * What the diff file shows: every entry of the diff list exactly once, in
   * groups that are not empty, each group holding only its kind's entries in
   * title order, each kind in one group only, and the groups in kind order.
   */
  lemma DiffReportProperties(difflist: seq<FindResult>)
    ensures multiset(Flatten(DiffReport(difflist))) == multiset(difflist)
    ensures forall g <- DiffReport(difflist) ::
              && g.entries != []
              && SortedBy(g.entries, TitleKey)
              && forall e <- g.entries :: KindKey(e) == g.key
    ensures forall i, j :: 0 <= i < j < |DiffReport(difflist)| ==>
              LexLe(DiffReport(difflist)[i].key, DiffReport(difflist)[j].key) &&
              DiffReport(difflist)[i].key != DiffReport(difflist)[j].key
  {
    DiffReportIsByKind(difflist);
    var d, n, r := Section(difflist, Duplicate), Section(difflist, New), Section(difflist, Resolution);
    SectionProperties(difflist, Duplicate);
    SectionProperties(difflist, New);
    SectionProperties(difflist, Resolution);
    FlattenAppend(d + n, r);
    FlattenAppend(d, n);
    OfKindPartition(difflist);
    KindNamesAscending();
    SectionsAscending(d, n, r);
  }

  lemma {:induction false} FlattenAppend(a: seq<Group>, b: seq<Group>)
    ensures Flatten(a + b) == Flatten(a) + Flatten(b)
  {
    if a == [] {
      assert a + b == b;
    } else {
      assert (a + b)[0] == a[0];
      assert (a + b)[1..] == a[1..] + b;
      FlattenAppend(a[1..], b);
    }
  }

  /** A section is one non-empty, title-sorted group of its kind, or nothing. */
  lemma SectionProperties(difflist: seq<FindResult>, k: Kind)
    ensures |Section(difflist, k)| <= 1
    ensures multiset(Flatten(Section(difflist, k))) == multiset(OfKind(difflist, k))
    ensures forall g <- Section(difflist, k) ::
              && g.key == k.Name()
              && g.entries != []
              && SortedBy(g.entries, TitleKey)
              && forall e <- g.entries :: KindKey(e) == g.key
  {
    var entries := OfKind(difflist, k);
    if entries != [] {
      var sorted := SortBy(entries, TitleKey);
      SortByProperties(entries, TitleKey);
      assert Flatten(Section(difflist, k)) == sorted + Flatten([]);
      forall e <- sorted ensures KindKey(e) == k.Name() {
        assert e in multiset(sorted);
      }
    }
  }

  /** The entries of the three kinds together are the diff list. */
  lemma OfKindPartition(difflist: seq<FindResult>)
    ensures multiset(OfKind(difflist, Duplicate)) + multiset(OfKind(difflist, New)) +
            multiset(OfKind(difflist, Resolution)) == multiset(difflist)
  {
    SortByKindIsBlocks(difflist);
    var d, n, r := OfKind(difflist, Duplicate), OfKind(difflist, New), OfKind(difflist, Resolution);
    assert multiset(d + n + r) == multiset(d) + multiset(n) + multiset(r);
  }

  /** At most one group per kind, in kind order, gives strictly ascending keys. */
  lemma SectionsAscending(d: seq<Group>, n: seq<Group>, r: seq<Group>)
    requires |d| <= 1 && |n| <= 1 && |r| <= 1
    requires forall g <- d :: g.key == "DUPLICATE"
    requires forall g <- n :: g.key == "NEW"
    requires forall g <- r :: g.key == "RESOLUTION"
    requires LexLe("DUPLICATE", "NEW") && LexLe("NEW", "RESOLUTION") && LexLe("DUPLICATE", "RESOLUTION")
    ensures forall i, j :: 0 <= i < j < |d + n + r| ==>
              LexLe((d + n + r)[i].key, (d + n + r)[j].key) && (d + n + r)[i].key != (d + n + r)[j].key
  {
    var s := d + n + r;
    forall i, j | 0 <= i < j < |s| ensures LexLe(s[i].key, s[j].key) && s[i].key != s[j].key {
      assert s[i] in d || s[i] in n;
      assert s[j] in n || s[j] in r;
      if s[i] in d {
        assert s[j] in n || s[j] in r;
      } else {
        assert s[j] in r;
      }
    }
  }

  /**
   * Results NEW(B), DUPLICATE(A), NEW(A), RESOLUTION(C) come out as
   * DUPLICATE, then NEW with A before B, then RESOLUTION.
   */
  lemma ReportGroupingExample(a: Movie, b: Movie, c: Movie)
    requires a.title == "A" && b.title == "B" && c.title == "C"
    ensures DiffReport([FindResult(New, b), FindResult(Duplicate, a), FindResult(New, a), FindResult(Resolution, c)]) ==
            [Group(Duplicate.Name(), [FindResult(Duplicate, a)]),
             Group(New.Name(), [FindResult(New, a), FindResult(New, b)]),
             Group(Resolution.Name(), [FindResult(Resolution, c)])]
  {
    var nb, da, na, rc := FindResult(New, b), FindResult(Duplicate, a), FindResult(New, a), FindResult(Resolution, c);
    var difflist := [nb, da, na, rc];
    var expected := [Group(Duplicate.Name(), [da]), Group(New.Name(), [na, nb]), Group(Resolution.Name(), [rc])];
    assert ReportByKind(difflist) == expected by {
      ExampleReportByKind(nb, da, na, rc);
    }
    DiffReportIsByKind(difflist);
  }

  lemma ExampleReportByKind(nb: FindResult, da: FindResult, na: FindResult, rc: FindResult)
    requires nb.kind == New && da.kind == Duplicate && na.kind == New && rc.kind == Resolution
    requires na.movie.title == "A" && nb.movie.title == "B"
    ensures ReportByKind([nb, da, na, rc]) ==
            [Group(Duplicate.Name(), [da]), Group(New.Name(), [na, nb]), Group(Resolution.Name(), [rc])]
  {
    var difflist := [nb, da, na, rc];
    ExampleOfKind(nb, da, na, rc);
    SortOneByTitle(da);
    SortTwoByTitle(na, nb);
    SortOneByTitle(rc);
    SectionOf(difflist, Duplicate, [da], [da]);
    SectionOf(difflist, New, [nb, na], [na, nb]);
    SectionOf(difflist, Resolution, [rc], [rc]);
    ReportOfSections(difflist, Group(Duplicate.Name(), [da]), Group(New.Name(), [na, nb]), Group(Resolution.Name(), [rc]));
  }

  lemma ReportOfSections(difflist: seq<FindResult>, gd: Group, gn: Group, gr: Group)
    requires Section(difflist, Duplicate) == [gd]
    requires Section(difflist, New) == [gn]
    requires Section(difflist, Resolution) == [gr]
    ensures ReportByKind(difflist) == [gd, gn, gr]
  {
    ConcatSingletons(Section(difflist, Duplicate), Section(difflist, New), Section(difflist, Resolution), gd, gn, gr);
  }

  lemma ConcatSingletons(a: seq<Group>, b: seq<Group>, c: seq<Group>, x: Group, y: Group, z: Group)
    requires a == [x] && b == [y] && c == [z]
    ensures a + b + c == [x, y, z]
  {
  }

  lemma SectionOf(difflist: seq<FindResult>, k: Kind, entries: seq<FindResult>, sorted: seq<FindResult>)
    requires OfKind(difflist, k) == entries != []
    requires SortBy(entries, TitleKey) == sorted
    ensures Section(difflist, k) == [Group(k.Name(), sorted)]
  {
  }

  lemma ExampleOfKind(nb: FindResult, da: FindResult, na: FindResult, rc: FindResult)
    requires nb.kind == New && da.kind == Duplicate && na.kind == New && rc.kind == Resolution
    ensures OfKind([nb, da, na, rc], Duplicate) == [da]
    ensures OfKind([nb, da, na, rc], New) == [nb, na]
    ensures OfKind([nb, da, na, rc], Resolution) == [rc]
  {
    assert OfKind([nb, da, na, rc], Duplicate) == [da] by {
      OfKindOfFour(nb, da, na, rc, Duplicate);
    }
    assert OfKind([nb, da, na, rc], New) == [nb, na] by {
      OfKindOfFour(nb, da, na, rc, New);
    }
    assert OfKind([nb, da, na, rc], Resolution) == [rc] by {
      OfKindOfFour(nb, da, na, rc, Resolution);
    }
  }

  lemma OfKindOfFour(w: FindResult, x: FindResult, y: FindResult, z: FindResult, k: Kind)
    ensures OfKind([w, x, y, z], k) ==
            (if w.kind == k then [w] else []) + (if x.kind == k then [x] else []) +
            (if y.kind == k then [y] else []) + (if z.kind == k then [z] else [])
  {
    OfKindOfThree(x, y, z, k);
    OfKindCons(w, [x, y, z], k);
    assert [w, x, y, z] == [w] + [x, y, z];
  }

  lemma OfKindOfThree(x: FindResult, y: FindResult, z: FindResult, k: Kind)
    ensures OfKind([x, y, z], k) ==
            (if x.kind == k then [x] else []) + (if y.kind == k then [y] else []) + (if z.kind == k then [z] else [])
  {
    OfKindOfTwo(y, z, k);
    OfKindCons(x, [y, z], k);
    assert [x, y, z] == [x] + [y, z];
  }

  lemma OfKindOfTwo(y: FindResult, z: FindResult, k: Kind)
    ensures OfKind([y, z], k) == (if y.kind == k then [y] else []) + (if z.kind == k then [z] else [])
  {
    OfKindNone([], k);
    OfKindCons(z, [], k);
    assert [z] == [z] + [];
    OfKindCons(y, [z], k);
    assert [y, z] == [y] + [z];
  }

  lemma SortTwoByTitle(x: FindResult, y: FindResult)
    requires x.movie.title == "A" && y.movie.title == "B"
    ensures SortBy([y, x], TitleKey) == [x, y]
  {
    assert !LexLe("B", "A");
    assert [y, x][1..] == [x];
    SortOneByTitle(x);
    assert Insert(y, [x], TitleKey) == [x] + Insert(y, [], TitleKey);
  }

  lemma SortOneByTitle(x: FindResult)
    ensures SortBy([x], TitleKey) == [x]
  {
    assert [x][1..] == [];
  }

  /** The lines written to the report file: a header per group, one indented file name per entry. */
  function RenderReport(groups: seq<Group>): seq<string> {
    if groups == [] then []
    else [groups[0].key + "\n"] + RenderEntries(groups[0].entries) + RenderReport(groups[1..])
  }

  function RenderEntries(entries: seq<FindResult>): (lines: seq<string>)
    ensures |lines| == |entries|
    ensures forall k :: 0 <= k < |entries| ==> lines[k] == "  " + entries[k].movie.filename + "\n"
  {
    if entries == [] then [] else ["  " + entries[0].movie.filename + "\n"] + RenderEntries(entries[1..])
  }

  /** The file has one line per group and one per entry. */
  lemma {:induction false} RenderReportLength(groups: seq<Group>)
    ensures |RenderReport(groups)| == |groups| + |Flatten(groups)|
  {
    if groups != [] {
      RenderReportLength(groups[1..]);
    }
  }

  /** Where a group starts in the file: one header per earlier group and one line per earlier entry. */
  function Start(groups: seq<Group>, gi: int): int
    requires 0 <= gi <= |groups|
  {
    gi + |Flatten(groups[..gi])|
  }

  /** The lines from position `p` on are group `g`: its header, then one indented file name per entry. */
  predicate GroupLinesAt(lines: seq<string>, p: int, g: Group) {
    && 0 <= p && p + |g.entries| < |lines|
    && lines[p] == g.key + "\n"
    && forall k :: 0 <= k < |g.entries| ==> lines[p + 1 + k] == "  " + g.entries[k].movie.filename + "\n"
  }

  /**
   * What the lines are: each group's header is its key, directly followed by
   * one indented file name per entry of the group, in entry order.
   */
  lemma {:induction false} RenderReportLines(groups: seq<Group>, gi: int)
    requires 0 <= gi < |groups|
    ensures GroupLinesAt(RenderReport(groups), Start(groups, gi), groups[gi])
    decreases |groups|
  {
    var head := [groups[0].key + "\n"] + RenderEntries(groups[0].entries);
    var tail := RenderReport(groups[1..]);
    assert RenderReport(groups) == head + tail;
    if gi == 0 {
      assert groups[..0] == [];
      GroupLinesFirst(groups[0], tail);
    } else {
      RenderReportLines(groups[1..], gi - 1);
      assert groups[..gi] == [groups[0]] + groups[1..][..gi - 1];
      FlattenCons(groups[0], groups[1..][..gi - 1]);
      assert Start(groups, gi) == |head| + Start(groups[1..], gi - 1);
      GroupLinesShift(head, tail, Start(groups[1..], gi - 1), groups[gi]);
    }
  }

  lemma GroupLinesFirst(g: Group, tail: seq<string>)
    ensures GroupLinesAt([g.key + "\n"] + RenderEntries(g.entries) + tail, 0, g)
  {
  }

  lemma GroupLinesShift(head: seq<string>, tail: seq<string>, p: int, g: Group)
    requires GroupLinesAt(tail, p, g)
    ensures GroupLinesAt(head + tail, |head| + p, g)
  {
    forall k | 0 <= k < |g.entries|
      ensures (head + tail)[|head| + p + 1 + k] == "  " + g.entries[k].movie.filename + "\n"
    {
      assert (head + tail)[|head| + p + 1 + k] == tail[p + 1 + k];
    }
  }

  /** For the diff report: every entry's file name follows its kind's header, in title order. */
  lemma RenderDiffReportLines(difflist: seq<FindResult>, gi: int)
    requires 0 <= gi < |DiffReport(difflist)|
    ensures GroupLinesAt(RenderReport(DiffReport(difflist)), Start(DiffReport(difflist), gi), DiffReport(difflist)[gi])
    ensures SortedBy(DiffReport(difflist)[gi].entries, TitleKey)
    ensures forall e <- DiffReport(difflist)[gi].entries :: KindKey(e) == DiffReport(difflist)[gi].key
  {
    RenderReportLines(DiffReport(difflist), gi);
    DiffReportProperties(difflist);
    var g := DiffReport(difflist)[gi];
    assert g in DiffReport(difflist);
  }
}
