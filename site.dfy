/** Site assembly (lib/hbar.py): the article list kept by `SiteState`, its
    tag index and `seek_in_tag`, the comment filter of the global store
    file, the ordering of the tag list and of the recent posts, and the
    byline's ordinal suffix. */
module Site {
  import opened Text
  import Sorting
  import Slugs
  import Urls

  /** The parts of a stored article record this module uses.  `date` is the
      parsed timestamp, as seconds on one UTC time line. */
  datatype ArticleInfo = ArticleInfo(date: int, tags: seq<string>, outputPath: string, title: string)

  // ---------------------------------------------------------------------
  // The global store file

  /** A line of the global store file survives the filter: not blank, not a comment. */
  predicate KeptLine(stripped: string)
  {
    stripped != "" && stripped[0] != '#'
  }

  /** The lines of `.hbar-store` that `SiteState` reads: each stripped of
      surrounding whitespace, blank lines and `#` comments dropped. */
  function StoreLines(lines: seq<string>): (r: seq<string>)
    ensures forall k :: 0 <= k < |r| ==> KeptLine(r[k])
    ensures |r| <= |lines|
  {
    if lines == [] then []
    else
      var last := StripSpace(lines[|lines| - 1]);
      StoreLines(lines[..|lines| - 1]) + (if KeptLine(last) then [last] else [])
  }

  /** Every line that is neither blank nor a comment survives, stripped,
      in its place among the others. */
  lemma {:induction false} StoreLinesAppend(a: seq<string>, b: seq<string>)
    ensures StoreLines(a + b) == StoreLines(a) + StoreLines(b)
  {
    if b == [] {
      assert a + b == a;
    } else {
      assert (a + b)[..|a + b| - 1] == a + b[..|b| - 1];
      StoreLinesAppend(a, b[..|b| - 1]);
    }
  }

  lemma StoreLinesOne(line: string)
    ensures StoreLines([line]) == (if KeptLine(StripSpace(line)) then [StripSpace(line)] else [])
  {
    assert [line][..0] == [];
  }

  /** A comment line, however indented, contributes nothing. */
  lemma StoreLinesDropsComments(a: seq<string>, comment: string, b: seq<string>)
    requires StripSpace(comment) == "" || StripSpace(comment)[0] == '#'
    ensures StoreLines(a + [comment] + b) == StoreLines(a) + StoreLines(b)
  {
    var kept := StoreLines(a + [comment]);
    assert kept == StoreLines(a) by {
      StoreLinesAppend(a, [comment]);
      StoreLinesOne(comment);
      assert StoreLines([comment]) == [];
    }
    StoreLinesAppend(a + [comment], b);
  }

  // ---------------------------------------------------------------------
  // The byline

  /** The suffix `_html_byline` gives the day of the month. */
  function Ordinal(day: int): (r: string)
    ensures r in {"st", "nd", "rd", "th"}
  {
    if day in {1, 21, 31} then "st"
    else if day in {2, 22} then "nd"
    else if day in {3, 23} then "rd"
    else "th"
  }

  /** The English rule for ordinal suffixes, for any positive number. */
  function EnglishOrdinal(n: nat): string
  {
    if 11 <= n % 100 <= 13 then "th"
    else if n % 10 == 1 then "st"
    else if n % 10 == 2 then "nd"
    else if n % 10 == 3 then "rd"
    else "th"
  }

  /** On every day a month can have, the byline's suffix is the English one. */
  lemma OrdinalIsEnglish(day: int)
    requires 1 <= day <= 31
    ensures Ordinal(day) == EnglishOrdinal(day)
  {
    if day < 10 {
    } else if day < 20 {
      assert 11 <= day % 100 <= 13 <==> 11 <= day <= 13;
    } else if day < 30 {
      assert day % 10 == day - 20;
    } else {
      assert day % 10 == day - 30;
    }
  }

  /** `str(date.day) + ordinal`. */
  function DayString(day: nat): string
  {
    NatToString(day) + Ordinal(day)
  }

  // ---------------------------------------------------------------------
  // The tag list

  /** Python's `<=` on strings: lexicographic by code point. */
  predicate StrLe(a: string, b: string)
  {
    a == [] || (b != [] && (a[0] < b[0] || (a[0] == b[0] && StrLe(a[1..], b[1..]))))
  }

  lemma {:induction false} StrLeTotal(a: string, b: string)
    ensures StrLe(a, b) || StrLe(b, a)
  {
    if a != [] && b != [] && a[0] == b[0] {
      StrLeTotal(a[1..], b[1..]);
    }
  }

  lemma {:induction false} StrLeTransitive(a: string, b: string, c: string)
    requires StrLe(a, b) && StrLe(b, c)
    ensures StrLe(a, c)
  {
    if a != [] && b != [] && c != [] && a[0] == b[0] == c[0] {
      StrLeTransitive(a[1..], b[1..], c[1..]);
    }
  }

  lemma {:induction false} StrLeAntisymmetric(a: string, b: string)
    requires StrLe(a, b) && StrLe(b, a)
    ensures a == b
  {
    if a != [] && b != [] {
      StrLeAntisymmetric(a[1..], b[1..]);
      assert a == [a[0]] + a[1..] && b == [b[0]] + b[1..];
    }
  }

  /** `(count, tag)` tuples compared as `sorted(..., reverse=True)` does:
      may `x` come before `y`. */
  predicate TagEntryGe(x: (string, nat), y: (string, nat))
  {
    x.1 > y.1 || (x.1 == y.1 && StrLe(y.0, x.0))
  }

  lemma TagEntryOrder()
    ensures Sorting.TotalPreorder(TagEntryGe)
  {
    forall x: (string, nat), y: (string, nat)
      ensures TagEntryGe(x, y) || TagEntryGe(y, x)
    {
      StrLeTotal(x.0, y.0);
    }
    forall x: (string, nat), y: (string, nat), z: (string, nat) | TagEntryGe(x, y) && TagEntryGe(y, z)
      ensures TagEntryGe(x, z)
    {
      if x.1 == y.1 == z.1 {
        StrLeTransitive(z.0, y.0, x.0);
      }
    }
  }

  /** The order of `_html_tag_list`: the `(tag, number of articles)` pairs
      of the tag index, most used first, ties by tag in reverse string order. */
  function TagListOrder(tags: seq<(string, nat)>): (r: seq<(string, nat)>)
    ensures multiset(r) == multiset(tags)
    ensures forall i, j :: 0 <= i < j < |r| ==>
      r[i].1 > r[j].1 || (r[i].1 == r[j].1 && StrLe(r[j].0, r[i].0))
  {
    var r := Sorting.Sort(tags, TagEntryGe);
    Sorting.SortPermutes(tags, TagEntryGe);
    TagEntryOrder();
    Sorting.SortSorted(tags, TagEntryGe);
    assert forall i, j :: 0 <= i < j < |r| ==> TagEntryGe(r[i], r[j]);
    r
  }

  // ---------------------------------------------------------------------
  // Recent posts

  /** How many recent posts the template shows. */
  const RecentCount: nat := 10

  predicate NewerOrSame(a: ArticleInfo, b: ArticleInfo)
  {
    a.date >= b.date
  }

  /** `sorted(article_infos, key=date, reverse=True)[:count]`. */
  function RecentPosts(infos: seq<ArticleInfo>, count: nat): (r: seq<ArticleInfo>)
    ensures |r| == if count < |infos| then count else |infos|
    ensures multiset(r) <= multiset(infos)
    ensures forall i, j :: 0 <= i < j < |r| ==> r[i].date >= r[j].date
  {
    var sorted := Sorting.Sort(infos, NewerOrSame);
    Sorting.SortPermutes(infos, NewerOrSame);
    Sorting.SortSorted(infos, NewerOrSame);
    var n := if count < |infos| then count else |infos|;
    SortedPrefix(sorted, n);
    sorted[..n]
  }

  lemma SortedPrefix(sorted: seq<ArticleInfo>, n: nat)
    requires n <= |sorted| && Sorting.Sorted(sorted, NewerOrSame)
    ensures multiset(sorted[..n]) <= multiset(sorted)
    ensures forall i, j :: 0 <= i < j < n ==> sorted[..n][i].date >= sorted[..n][j].date
  {
    assert sorted == sorted[..n] + sorted[n..];
    assert forall i, j :: 0 <= i < j < n ==> NewerOrSame(sorted[i], sorted[j]);
  }

  /** No article left out of the recent posts is newer than one shown. */
  lemma RecentPostsAreNewest(infos: seq<ArticleInfo>, count: nat)
    ensures var shown := RecentPosts(infos, count);
      forall a, b :: a in multiset(shown) && b in multiset(infos) - multiset(shown) ==> a.date >= b.date
  {
    var sorted := Sorting.Sort(infos, NewerOrSame);
    Sorting.SortPermutes(infos, NewerOrSame);
    Sorting.SortSorted(infos, NewerOrSame);
    var n := if count < |infos| then count else |infos|;
    assert sorted == sorted[..n] + sorted[n..];
    assert multiset(infos) - multiset(sorted[..n]) == multiset(sorted[n..]);
    SortedSplit(sorted, n);
  }

  lemma SortedSplit(sorted: seq<ArticleInfo>, n: nat)
    requires n <= |sorted|
    requires Sorting.Sorted(sorted, NewerOrSame)
    ensures forall a, b :: a in multiset(sorted[..n]) && b in multiset(sorted[n..]) ==> a.date >= b.date
  {
    forall a, b | a in multiset(sorted[..n]) && b in multiset(sorted[n..])
      ensures a.date >= b.date
    {
      assert a in sorted[..n] && b in sorted[n..];
      var i :| 0 <= i < n && sorted[i] == a;
      var j :| n <= j < |sorted| && sorted[j] == b;
      assert NewerOrSame(sorted[i], sorted[j]);
    }
  }

  /** Posts with the same date keep the order they had. */
  lemma RecentPostsStable(infos: seq<ArticleInfo>, c: ArticleInfo)
    ensures Sorting.Ties(Sorting.Sort(infos, NewerOrSame), NewerOrSame, c) == Sorting.Ties(infos, NewerOrSame, c)
  {
    Sorting.SortStable(infos, NewerOrSame, c);
  }

  // ---------------------------------------------------------------------
  // The tag index

  /** Number of times `t` occurs in `s`. */
  function Occurrences(t: string, s: seq<string>): (n: nat)
    ensures n > 0 <==> t in s
  {
    if s == [] then 0
    else Occurrences(t, s[..|s| - 1]) + (if s[|s| - 1] == t then 1 else 0)
  }

  function Repeat(id: string, n: nat): (r: seq<string>)
    ensures |r| == n && forall k :: 0 <= k < n ==> r[k] == id
  {
    seq(n, _ => id)
  }

  /** The list `SiteState` builds for tag `t`: going through the articles
      in the order of the global store, each id is appended once for every
      time the article lists `t`. */
  function TagMembers(entries: seq<(string, ArticleInfo)>, t: string): seq<string>
  {
    if entries == [] then []
    else
      var last := entries[|entries| - 1];
      TagMembers(entries[..|entries| - 1], t) + Repeat(last.0, Occurrences(t, last.1.tags))
  }

  /** Some article lists tag `t`. */
  ghost predicate Tagged(entries: seq<(string, ArticleInfo)>, t: string)
  {
    exists i :: 0 <= i < |entries| && t in entries[i].1.tags
  }

  /** `{id: i for i, id in enumerate(l)}`: a later position overwrites an
      earlier one, so each id maps to its last position. */
  function IndexMap(l: seq<string>): (m: map<string, nat>)
    ensures forall id :: id in m <==> id in l
    ensures forall id :: id in m ==> m[id] < |l| && l[m[id]] == id
    ensures forall id, k :: id in m && m[id] < k < |l| ==> l[k] != id
  {
    if l == [] then map[]
    else IndexMap(l[..|l| - 1])[l[|l| - 1] := |l| - 1]
  }

  /** The element at `index` of `l`, None outside it. */
  function Neighbour(l: seq<string>, index: int): (r: Option<string>)
    ensures r.Some? <==> 0 <= index < |l|
    ensures r.Some? ==> r.value == l[index]
  {
    if 0 <= index < |l| then Some(l[index]) else None
  }

  /** The lookups of `seek_in_tag` in `_tag_indices` and `_tags`. */
  function Seek(tags: map<string, seq<string>>, tagIndices: map<string, map<string, nat>>,
                tag: string, base: string, offset: int): Result<Option<string>, KeyError>
    requires forall t :: t in tagIndices ==> t in tags
  {
    if tag !in tagIndices || base !in tagIndices[tag] then Err(KeyError)
    else Ok(Neighbour(tags[tag], tagIndices[tag][base] + offset))
  }

  lemma SeekNeighbour(tags: map<string, seq<string>>, tagIndices: map<string, map<string, nat>>,
                      tag: string, base: string, offset: int, j: nat)
    requires forall t :: t in tagIndices ==> t in tags
    requires tag in tagIndices && tagIndices[tag] == IndexMap(tags[tag])
    requires j < |tags[tag]| && tags[tag][j] == base
    requires forall k :: j < k < |tags[tag]| ==> tags[tag][k] != base
    ensures Seek(tags, tagIndices, tag, base, offset) == Ok(Neighbour(tags[tag], j + offset))
  {
    IndexMapLast(tags[tag], base, j);
  }

  /** The position `IndexMap` gives an id is its last one. */
  lemma IndexMapLast(l: seq<string>, id: string, j: nat)
    requires j < |l| && l[j] == id
    requires forall k :: j < k < |l| ==> l[k] != id
    ensures id in IndexMap(l) && IndexMap(l)[id] == j
  {
    var m := IndexMap(l);
    assert id in m;
    var p := m[id];
    assert l[p] == id;
  }

  function Ids(entries: seq<(string, ArticleInfo)>): (r: seq<string>)
    ensures |r| == |entries| && forall i :: 0 <= i < |entries| ==> r[i] == entries[i].0
  {
    seq(|entries|, i requires 0 <= i < |entries| => entries[i].0)
  }

  /** The keys of a dictionary are distinct. */
  predicate DistinctIds(entries: seq<(string, ArticleInfo)>)
  {
    forall i, j :: 0 <= i < j < |entries| ==> entries[i].0 != entries[j].0
  }

  /** `sorted(articles, key=date)`: oldest first. */
  predicate OlderOrSame(a: (string, ArticleInfo), b: (string, ArticleInfo))
  {
    a.1.date <= b.1.date
  }

  /** The articles of a tag are exactly those whose tags list it. */
  lemma {:induction false} TagMembersContents(entries: seq<(string, ArticleInfo)>, t: string)
    ensures forall id :: id in TagMembers(entries, t) <==>
      exists i :: 0 <= i < |entries| && entries[i].0 == id && t in entries[i].1.tags
  {
    if entries != [] {
      var n := |entries| - 1;
      TagMembersContents(entries[..n], t);
      forall id | id in TagMembers(entries, t)
        ensures exists i :: 0 <= i < |entries| && entries[i].0 == id && t in entries[i].1.tags
      {
        if id !in TagMembers(entries[..n], t) {
          assert entries[n].0 == id && t in entries[n].1.tags;
        } else {
          var i :| 0 <= i < n && entries[..n][i].0 == id && t in entries[..n][i].1.tags;
          assert entries[i] == entries[..n][i];
        }
      }
      forall id | exists i :: 0 <= i < |entries| && entries[i].0 == id && t in entries[i].1.tags
        ensures id in TagMembers(entries, t)
      {
        var i :| 0 <= i < |entries| && entries[i].0 == id && t in entries[i].1.tags;
        if i < n {
          assert entries[..n][i] == entries[i];
        } else {
          assert Repeat(id, Occurrences(t, entries[n].1.tags))[0] == id;
        }
      }
    }
  }

  /** For each element of `TagMembers(entries, t)`, the position in the
      store of the article it comes from; these never decrease. */
  function TagOrigins(entries: seq<(string, ArticleInfo)>, t: string): (r: seq<nat>)
    ensures forall p :: 0 <= p < |r| ==> r[p] < |entries|
    ensures forall p, q :: 0 <= p < q < |r| ==> r[p] <= r[q]
  {
    if entries == [] then []
    else
      var n := |entries| - 1;
      TagOrigins(entries[..n], t) + seq(Occurrences(t, entries[n].1.tags), _ => n)
  }

  /** Each tag's list follows the order of the global store file: its
      elements are the ids of articles listing the tag, taken at
      non-decreasing store positions.  It is not ordered by date (see
      `TagMembersNotByDate`). */
  lemma {:induction false} TagMembersInStoreOrder(entries: seq<(string, ArticleInfo)>, t: string)
    ensures |TagOrigins(entries, t)| == |TagMembers(entries, t)|
    ensures forall p :: 0 <= p < |TagMembers(entries, t)| ==>
      var i := TagOrigins(entries, t)[p];
      TagMembers(entries, t)[p] == entries[i].0 && t in entries[i].1.tags
  {
    if entries != [] {
      var n := |entries| - 1;
      TagMembersInStoreOrder(entries[..n], t);
      var before := TagMembers(entries[..n], t);
      var o := TagOrigins(entries[..n], t);
      var m := TagMembers(entries, t);
      var origin := TagOrigins(entries, t);
      forall p | 0 <= p < |m|
        ensures m[p] == entries[origin[p]].0 && t in entries[origin[p]].1.tags
      {
        if p < |before| {
          assert m[p] == before[p] && origin[p] == o[p];
          assert entries[..n][o[p]] == entries[o[p]];
        } else {
          assert origin[p] == n;
          assert m[p] == entries[n].0;
        }
      }
    }
  }

  /** `articles_by_tag` promises oldest-to-newest order, but a tag list
      follows the store file: here the newer article comes first in its
      tag's list while the date-sorted articles put it last. */
  lemma TagMembersNotByDate()
    ensures var entries := [("newer", ArticleInfo(2, ["x"], "posts/b", "B")), ("older", ArticleInfo(1, ["x"], "posts/a", "A"))];
      && TagMembers(entries, "x") == ["newer", "older"]
      && Ids(Sorting.Sort(entries, OlderOrSame)) == ["older", "newer"]
  {
    var entries := [("newer", ArticleInfo(2, ["x"], "posts/b", "B")), ("older", ArticleInfo(1, ["x"], "posts/a", "A"))];
    assert entries[..1][..0] == [];
    assert ["x"][..0] == [];
    assert Occurrences("x", ["x"]) == 1;
    assert TagMembers(entries[..1], "x") == ["newer"];
    assert entries[1..] == [entries[1]] && entries[1..][1..] == [];
    assert Sorting.Sort(entries[1..], OlderOrSame) == [entries[1]];
  }

  /** What `SiteState` derives from the store: the records by id, the ids
      by age, each tag's list and the positions in it. */
  ghost predicate Consistent(entries: seq<(string, ArticleInfo)>, infos: map<string, ArticleInfo>, articles: seq<string>,
                             tags: map<string, seq<string>>, tagIndices: map<string, map<string, nat>>)
  {
    && DistinctIds(entries)
    && (forall i :: 0 <= i < |entries| ==> entries[i].0 in infos && infos[entries[i].0] == entries[i].1)
    && articles == Ids(Sorting.Sort(entries, OlderOrSame))
    && (forall t :: t in tags ==> tags[t] == TagMembers(entries, t))
    && (forall t :: t in tagIndices <==> Tagged(entries, t))
    && (forall t :: t in tagIndices ==> t in tags && tagIndices[t] == IndexMap(tags[t]))
  }

  /** A tag missing from the index has no articles, and adding it with an
      empty list keeps the state consistent. */
  lemma EmptyTagConsistent(entries: seq<(string, ArticleInfo)>, infos: map<string, ArticleInfo>, articles: seq<string>,
                           tags: map<string, seq<string>>, tagIndices: map<string, map<string, nat>>, tag: string)
    requires Consistent(entries, infos, articles, tags, tagIndices) && tag !in tags
    ensures TagMembers(entries, tag) == []
    ensures Consistent(entries, infos, articles, tags[tag := []], tagIndices)
  {
    assert !Tagged(entries, tag);
    TagMembersAbsent(entries, tag);
  }

  /** The exception of a dictionary lookup with a missing key. */
  datatype KeyError = KeyError

  /** The part of `SiteState` built from the article records: the template
      environment of links, the articles by age and the tag index. */
  class SiteState {
    var environment: map<string, string>
    var infos: map<string, ArticleInfo>
    var articles: seq<string>                       // ids, oldest first
    var tags: map<string, seq<string>>              // `_tags`
    var tagIndices: map<string, map<string, nat>>   // `_tag_indices`
    ghost var entries: seq<(string, ArticleInfo)>   // the global store, in file order

    ghost predicate Valid()
      reads this
    {
      Consistent(entries, infos, articles, tags, tagIndices)
    }

    /** The links of the template environment `SiteState` sets up. */
    ghost predicate EnvironmentHolds()
      reads this
    {
      && "about" in environment && environment["about"] == Urls.CanonicalAbs("about")
      && (forall i :: 0 <= i < |entries| ==>
            var key := "article_" + entries[i].0;
            key in environment && environment[key] == Urls.CanonicalAbs(entries[i].1.outputPath))
      && (forall t :: t in tagIndices ==>
            var safe := Slugs.SanitiseTag(t);
            "tag_" + safe in environment && environment["tag_" + safe] == "/tags/" + safe + "/")
    }

    /** `SiteState.__init__` over the article records the global store
        names, in its order (a dictionary, so the ids are distinct). */
    constructor (store: seq<(string, ArticleInfo)>)
      requires DistinctIds(store)
      ensures entries == store
      ensures Valid() && EnvironmentHolds()
    {
      var env := map["about" := Urls.CanonicalAbs("about")];
      var byId: map<string, ArticleInfo> := map[];
      var i := 0;
      while i < |store|
        invariant 0 <= i <= |store|
        invariant "about" in env && env["about"] == Urls.CanonicalAbs("about")
        invariant forall j :: 0 <= j < i ==> store[j].0 in byId && byId[store[j].0] == store[j].1
        invariant forall j :: 0 <= j < i ==>
          "article_" + store[j].0 in env && env["article_" + store[j].0] == Urls.CanonicalAbs(store[j].1.outputPath)
      {
        var (id, info) := store[i];
        byId := byId[id := info];
        assert "article_" + id != "about" by {
          assert ("article_" + id)[1] != "about"[1];
        }
        forall j | 0 <= j < i
          ensures "article_" + store[j].0 != "article_" + id
        {
          PrefixInjective("article_", store[j].0, id);
        }
        env := env["article_" + id := Urls.CanonicalAbs(info.outputPath)];
        i := i + 1;
      }
      var index := TagIndex(store);
      var indices, env' := IndexTags(index, env, store);
      environment := env';
      infos := byId;
      articles := Ids(Sorting.Sort(store, OlderOrSame));
      tags := index;
      tagIndices := indices;
      entries := store;
    }

    /** `seek_in_tag(tag, base_article, offset)`: the article `offset`
        places from `base_article` in the tag's list, None past either end;
        a tag no article lists, or an article not in the tag, is a KeyError. */
    function SeekInTag(tag: string, base: string, offset: int): (r: Result<Option<string>, KeyError>)
      reads this
      requires Valid()
      ensures r.Err? <==> !Tagged(entries, tag) || base !in TagMembers(entries, tag)
      ensures r.Ok? && r.value.Some? ==> r.value.value in TagMembers(entries, tag)
    {
      Seek(tags, tagIndices, tag, base, offset)
    }

    /** With `j` the last position of `base` in the tag's list, seeking
        `offset` places answers the element at `j + offset`. */
    lemma SeekInTagNeighbour(tag: string, base: string, offset: int, j: nat)
      requires Valid()
      requires Tagged(entries, tag)
      requires j < |TagMembers(entries, tag)| && TagMembers(entries, tag)[j] == base
      requires forall k :: j < k < |TagMembers(entries, tag)| ==> TagMembers(entries, tag)[k] != base
      ensures var m := TagMembers(entries, tag);
        SeekInTag(tag, base, offset) == Ok(Neighbour(m, j + offset))
    {
      var m := TagMembers(entries, tag);
      assert tag in tagIndices && tags[tag] == m && tagIndices[tag] == IndexMap(m);
      SeekNeighbour(tags, tagIndices, tag, base, offset, j);
    }

    /** Seeking no distance from an article of the tag finds that article. */
    lemma SeekInTagSelf(tag: string, base: string)
      requires Valid()
      requires Tagged(entries, tag) && base in TagMembers(entries, tag)
      ensures SeekInTag(tag, base, 0) == Ok(Some(base))
    {
    }

    /** `articles_by_tag(tag)`: the tag's list.  `_tags` is a default
        dictionary, so asking for a tag no article lists adds it, empty. */
    method ArticlesByTag(tag: string) returns (r: seq<string>)
      requires Valid()
      modifies this
      ensures Valid() && r == TagMembers(entries, tag)
      ensures tags == old(tags)[tag := r]
      ensures environment == old(environment) && infos == old(infos) && articles == old(articles)
      ensures tagIndices == old(tagIndices) && entries == old(entries)
    {
      if tag !in tags {
        EmptyTagConsistent(entries, infos, articles, tags, tagIndices, tag);
        tags := tags[tag := []];
      }
      r := tags[tag];
    }
  }

  /** The loading loop of `SiteState.__init__` that fills the `_tags`
      default dictionary: every tag an article lists gets the article's id
      appended. */
  method TagIndex(store: seq<(string, ArticleInfo)>) returns (tags: map<string, seq<string>>)
    ensures forall t :: t in tags <==> Tagged(store, t)
    ensures forall t :: t in tags ==> tags[t] == TagMembers(store, t)
  {
    tags := map[];
    var i := 0;
    while i < |store|
      invariant 0 <= i <= |store|
      invariant forall t :: t in tags <==> Tagged(store[..i], t)
      invariant forall t :: t in tags ==> tags[t] == TagMembers(store[..i], t)
    {
      var (id, info) := store[i];
      tags := AppendId(tags, id, info.tags, store[..i]);
      assert store[..i + 1][..i] == store[..i];
      TaggedSnoc(store[..i], store[i]);
      assert store[..i + 1] == store[..i] + [store[i]];
      i := i + 1;
    }
    assert store[..i] == store;
  }

  /** The inner loop: `self._tags[tag].append(article_id)` for each tag the
      article lists, a missing tag starting from an empty list. */
  method AppendId(tags0: map<string, seq<string>>, id: string, articleTags: seq<string>, ghost before: seq<(string, ArticleInfo)>)
    returns (tags: map<string, seq<string>>)
    requires forall t :: t in tags0 <==> Tagged(before, t)
    requires forall t :: t in tags0 ==> tags0[t] == TagMembers(before, t)
    ensures forall t :: t in tags <==> Tagged(before, t) || t in articleTags
    ensures forall t :: t in tags ==> tags[t] == TagMembers(before, t) + Repeat(id, Occurrences(t, articleTags))
  {
    tags := tags0;
    var j := 0;
    while j < |articleTags|
      invariant 0 <= j <= |articleTags|
      invariant forall t :: t in tags <==> Tagged(before, t) || t in articleTags[..j]
      invariant forall t :: t in tags ==>
        tags[t] == TagMembers(before, t) + Repeat(id, Occurrences(t, articleTags[..j]))
    {
      var tag := articleTags[j];
      assert articleTags[..j + 1] == articleTags[..j] + [tag];
      AppendIdStep(tags, id, before, articleTags[..j], tag);
      var members := if tag in tags then tags[tag] else [];
      tags := tags[tag := members + [id]];
      j := j + 1;
    }
    assert articleTags[..j] == articleTags;
  }

  /** One turn of the inner loop keeps the index in step with the tags
      seen so far. */
  lemma AppendIdStep(tags: map<string, seq<string>>, id: string, before: seq<(string, ArticleInfo)>, seen: seq<string>, tag: string)
    requires forall t :: t in tags <==> Tagged(before, t) || t in seen
    requires forall t :: t in tags ==> tags[t] == TagMembers(before, t) + Repeat(id, Occurrences(t, seen))
    ensures var tags' := tags[tag := (if tag in tags then tags[tag] else []) + [id]];
      && (forall t :: t in tags' <==> Tagged(before, t) || t in seen + [tag])
      && (forall t :: t in tags' ==> tags'[t] == TagMembers(before, t) + Repeat(id, Occurrences(t, seen + [tag])))
  {
    var tags' := tags[tag := (if tag in tags then tags[tag] else []) + [id]];
    forall t
      ensures t in tags' <==> Tagged(before, t) || t in seen + [tag]
    {
      assert t in seen + [tag] <==> t in seen || t == tag;
    }
    forall t | t in tags'
      ensures tags'[t] == TagMembers(before, t) + Repeat(id, Occurrences(t, seen + [tag]))
    {
      OccurrencesSnoc(t, seen, tag);
      if t == tag {
        var n := Occurrences(tag, seen);
        if tag !in tags {
          TagMembersAbsent(before, tag);
        }
        RepeatSnoc(id, n);
      }
    }
  }

  lemma OccurrencesSnoc(t: string, s: seq<string>, x: string)
    ensures Occurrences(t, s + [x]) == Occurrences(t, s) + (if x == t then 1 else 0)
  {
    assert (s + [x])[..|s|] == s;
  }

  lemma RepeatSnoc(id: string, n: nat)
    ensures Repeat(id, n) + [id] == Repeat(id, n + 1)
  {
  }

  lemma PrefixInjective(p: string, a: string, b: string)
    requires a != b
    ensures p + a != p + b
  {
    assert (p + a)[|p|..] == a && (p + b)[|p|..] == b;
  }

  lemma TaggedSnoc(entries: seq<(string, ArticleInfo)>, e: (string, ArticleInfo))
    ensures forall t :: Tagged(entries + [e], t) <==> Tagged(entries, t) || t in e.1.tags
  {
    forall t | Tagged(entries, t)
      ensures Tagged(entries + [e], t)
    {
      var i :| 0 <= i < |entries| && t in entries[i].1.tags;
      assert (entries + [e])[i] == entries[i];
    }
    forall t | t in e.1.tags
      ensures Tagged(entries + [e], t)
    {
      assert (entries + [e])[|entries|] == e;
    }
    forall t | Tagged(entries + [e], t) && !(t in e.1.tags)
      ensures Tagged(entries, t)
    {
      var i :| 0 <= i < |entries + [e]| && t in (entries + [e])[i].1.tags;
      assert i < |entries| && (entries + [e])[i] == entries[i];
    }
  }

  lemma {:induction false} TagMembersAbsent(entries: seq<(string, ArticleInfo)>, t: string)
    requires !Tagged(entries, t)
    ensures TagMembers(entries, t) == []
  {
    if entries != [] {
      var n := |entries| - 1;
      assert !(t in entries[n].1.tags);
      TagMembersAbsent(entries[..n], t);
    }
  }

  /** The loop of `SiteState.__init__` over the tag index: it records each
      tag's link in the environment and the position of each article in the
      tag's list. */
  method IndexTags(tags: map<string, seq<string>>, env0: map<string, string>, ghost store: seq<(string, ArticleInfo)>)
    returns (indices: map<string, map<string, nat>>, env: map<string, string>)
    requires "about" in env0
    ensures indices.Keys == tags.Keys
    ensures forall t :: t in indices ==> indices[t] == IndexMap(tags[t])
    ensures LinksKept(env, env0, store, tags.Keys)
  {
    indices, env := map[], env0;
    var remaining := tags.Keys;
    while remaining != {}
      invariant remaining <= tags.Keys
      invariant indices.Keys == tags.Keys - remaining
      invariant forall t :: t in indices ==> indices[t] == IndexMap(tags[t])
      invariant LinksKept(env, env0, store, tags.Keys - remaining)
      decreases remaining
    {
      var tag :| tag in remaining;
      var safe := Slugs.SanitiseTag(tag);
      TagLinkStep(env, env0, store, tags.Keys - remaining, tag);
      assert tags.Keys - (remaining - {tag}) == (tags.Keys - remaining) + {tag};
      env := env["tag_" + safe := "/tags/" + safe + "/"];
      indices := indices[tag := IndexMap(tags[tag])];
      remaining := remaining - {tag};
    }
  }

  /** The environment keeps the `about` link and the article links of
      `env0`, and holds the link of every tag in `done`. */
  ghost predicate LinksKept(env: map<string, string>, env0: map<string, string>, store: seq<(string, ArticleInfo)>, done: set<string>)
    requires "about" in env0
  {
    && "about" in env && env["about"] == env0["about"]
    && (forall j :: 0 <= j < |store| && "article_" + store[j].0 in env0 ==>
         "article_" + store[j].0 in env && env["article_" + store[j].0] == env0["article_" + store[j].0])
    && (forall t :: t in done ==>
         var safe := Slugs.SanitiseTag(t);
         "tag_" + safe in env && env["tag_" + safe] == "/tags/" + safe + "/")
  }

  /** Recording one more tag's link overwrites neither `about`, nor an
      article link, nor the link of a tag done before. */
  lemma TagLinkStep(env: map<string, string>, env0: map<string, string>, store: seq<(string, ArticleInfo)>, done: set<string>, tag: string)
    requires "about" in env0 && LinksKept(env, env0, store, done)
    ensures var safe := Slugs.SanitiseTag(tag);
      LinksKept(env["tag_" + safe := "/tags/" + safe + "/"], env0, store, done + {tag})
  {
    var safe := Slugs.SanitiseTag(tag);
    var key := "tag_" + safe;
    assert key != "about" by {
      assert key[0] != "about"[0];
    }
    forall j | 0 <= j < |store|
      ensures key != "article_" + store[j].0
    {
      assert key[0] != ("article_" + store[j].0)[0];
    }
    forall t | t in done
      ensures var other := Slugs.SanitiseTag(t);
        "tag_" + other == key ==> "/tags/" + other + "/" == "/tags/" + safe + "/"
    {
      var other := Slugs.SanitiseTag(t);
      if other != safe {
        PrefixInjective("tag_", other, safe);
      }
    }
  }
}
