/**
 * The AniDB tag repository: the start-up repair of tag names and
 * descriptions (backticks become apostrophes) and the tag lookups by tag
 * id, by anime and for the locally present series. The table is the
 * repository's cache, in order; the anime-to-tag links are given as a
 * sequence.
 */
module Tags {
  import opened Wrappers
  import opened Seqs

  const Backtick: char := '`'
  const Apostrophe: char := '\''

  /** An `AniDB_Tag`; a null description is `None`. */
  datatype Tag = Tag(tagId: int, name: string, description: Option<string>)

  /** An `AniDB_Anime_Tag` link: the anime carries the tag. */
  datatype AnimeTag = AnimeTag(animeId: int, tagId: int)

  /** A `RegenerateProgress` report, as the values it held when reported. */
  datatype Progress = Progress(title: string, step: int, total: int)

  const FixTitle: string := "Fixing Tag Names"

  /* ---------------------------------------------------------------------- */
  /* Init: backtick repair                                                  */
  /* ---------------------------------------------------------------------- */

  /** `string.Replace(char, char)`: every occurrence of `a` becomes `b`, every other character stays. */
  function Replace(s: string, a: char, b: char): (r: string)
    ensures |r| == |s|
    ensures forall k :: 0 <= k < |s| ==> r[k] == (if s[k] == a then b else s[k])
    ensures a != b ==> a !in r
    ensures a !in s ==> r == s
  {
    if s == [] then []
    else [if s[0] == a then b else s[0]] + Replace(s[1..], a, b)
  }

  /** The selection of `Init`: the description (when present) or the name contains a backtick. */
  predicate NeedsFix(t: Tag) {
    (t.description.Some? && Backtick in t.description.value) || Backtick in t.name
  }

  /** The repair of one tag. */
  function Fix(t: Tag): (r: Tag)
    ensures !NeedsFix(r)
    ensures r.tagId == t.tagId && r.description.Some? == t.description.Some?
    ensures !NeedsFix(t) ==> r == t
  {
    var d := if t.description.Some? then Some(Replace(t.description.value, Backtick, Apostrophe)) else None;
    Tag(t.tagId, Replace(t.name, Backtick, Apostrophe), d)
  }

  /** The progress reports of a repair of `n` tags: one per tag, then the final one with `Step == Total`. */
  function Reports(n: nat): (r: seq<Progress>)
    ensures |r| == n + 1
    ensures forall i :: 0 <= i < n ==> r[i] == Progress(FixTitle, i + 1, n)
    ensures r[n] == Progress(FixTitle, n, n)
  {
    seq(n, i requires 0 <= i < n => Progress(FixTitle, i + 1, n)) + [Progress(FixTitle, n, n)]
  }

  /** Every tag repaired in place. */
  function FixAll(table: seq<Tag>): (r: seq<Tag>)
    ensures |r| == |table|
    ensures forall i :: 0 <= i < |table| ==> r[i] == Fix(table[i])
  {
    if table == [] then [] else [Fix(table[0])] + FixAll(table[1..])
  }

  /**
   * `Init`: when no tag needs fixing nothing changes and nothing is
   * reported; otherwise the tags that need it are repaired, one report per
   * repaired tag, then a final report.
   */
  function Init(table: seq<Tag>): (r: (seq<Tag>, seq<Progress>))
    ensures |r.0| == |table|
    ensures forall i :: 0 <= i < |table| ==> !NeedsFix(r.0[i]) && r.0[i].tagId == table[i].tagId
    ensures forall i :: 0 <= i < |table| && !NeedsFix(table[i]) ==> r.0[i] == table[i]
    ensures forall i :: 0 <= i < |table| && NeedsFix(table[i]) ==> r.0[i] == Fix(table[i])
    ensures r.1 == [] <==> forall t :: t in table ==> !NeedsFix(t)
    ensures r.1 != [] ==> |r.1| == Count(table, NeedsFix) + 1 && r.1[|r.1| - 1].step == r.1[|r.1| - 1].total == Count(table, NeedsFix)
  {
    var n := Count(table, NeedsFix);
    if n == 0 then
      (table, [])
    else
      assert Filter(table, NeedsFix)[0] in table;
      (FixAll(table), Reports(n))
  }

  /** The repair only turns backticks into apostrophes: every other character of a name or description stays in place. */
  lemma FixChangesOnlyBackticks(t: Tag)
    ensures |Fix(t).name| == |t.name|
    ensures forall k :: 0 <= k < |t.name| ==>
      if t.name[k] == Backtick then Fix(t).name[k] == Apostrophe else Fix(t).name[k] == t.name[k]
    ensures t.description.Some? ==>
      && |Fix(t).description.value| == |t.description.value|
      && forall k :: 0 <= k < |t.description.value| ==>
        if t.description.value[k] == Backtick then Fix(t).description.value[k] == Apostrophe
        else Fix(t).description.value[k] == t.description.value[k]
  {
  }

  /** A second `Init` changes nothing and reports nothing. */
  lemma InitIdempotent(table: seq<Tag>)
    ensures Init(Init(table).0) == (Init(table).0, [])
  {
    var once := Init(table).0;
    assert forall t :: t in once ==> !NeedsFix(t);
  }

  /* ---------------------------------------------------------------------- */
  /* Lookups                                                                */
  /* ---------------------------------------------------------------------- */

  /** `GetByTagID`: the tag with that id, or null. */
  function GetByTagID(table: seq<Tag>, id: int): (r: Option<Tag>)
    ensures r.Some? ==> r.value in table && r.value.tagId == id
    ensures r.None? <==> forall t :: t in table ==> t.tagId != id
  {
    First(table, (t: Tag) => t.tagId == id)
  }

  /** The links of one anime, in link order (`AniDB_Anime_Tag.GetByAnimeID`). */
  function LinksOf(links: seq<AnimeTag>, animeId: int): (r: seq<AnimeTag>)
    ensures forall l :: l in r <==> l in links && l.animeId == animeId
  {
    Filter(links, (l: AnimeTag) => l.animeId == animeId)
  }

  /** `Select(GetByTagID).Where(a => a != null)`: the resolved tags of the links, unresolved ones dropped. */
  function Resolve(table: seq<Tag>, ls: seq<AnimeTag>): (r: seq<Tag>)
    ensures |r| <= |ls|
    ensures forall t :: t in r <==> exists l :: l in ls && GetByTagID(table, l.tagId) == Some(t)
  {
    if ls == [] then []
    else
      var rest := Resolve(table, ls[1..]);
      assert forall l :: l in ls <==> l == ls[0] || l in ls[1..];
      match GetByTagID(table, ls[0].tagId)
      case Some(t) => [t] + rest
      case None => rest
  }

  /** `GetByAnimeID`: the tags of one anime; a link whose tag is not in the table is omitted. */
  function GetByAnimeID(table: seq<Tag>, links: seq<AnimeTag>, animeId: int): (r: seq<Tag>)
    ensures |r| <= |LinksOf(links, animeId)|
    ensures forall t :: t in r <==> t in table && exists l :: l in links && l.animeId == animeId && l.tagId == t.tagId && GetByTagID(table, t.tagId) == Some(t)
  {
    Resolve(table, LinksOf(links, animeId))
  }

  /** The anime ids that carry at least one tag. */
  function Tagged(links: seq<AnimeTag>): set<int> {
    set l | l in links :: l.animeId
  }

  /** The lookup proper: per requested anime that has links, the result of `GetByTagID` for each link (null kept). */
  function Lookup(table: seq<Tag>, links: seq<AnimeTag>, ids: seq<int>): (r: map<int, seq<Option<Tag>>>)
    ensures forall a :: a in r <==> a in ids && a in Tagged(links)
    ensures forall a :: a in r ==>
      && |r[a]| == |LinksOf(links, a)|
      && forall k :: 0 <= k < |r[a]| ==> r[a][k] == GetByTagID(table, LinksOf(links, a)[k].tagId)
  {
    map a | a in ids && a in Tagged(links) ::
      var ls := LinksOf(links, a);
      seq(|ls|, k requires 0 <= k < |ls| => GetByTagID(table, ls[k].tagId))
  }

  /**
   * `GetByAnimeIDs`: a null array is an `ArgumentNullException`, an empty
   * one the empty lookup; otherwise every requested anime with links maps
   * to its tags.
   */
  function GetByAnimeIDs(table: seq<Tag>, links: seq<AnimeTag>, ids: Option<seq<int>>): (r: Result<map<int, seq<Option<Tag>>>, string>)
    ensures r.Failure? <==> ids.None?
    ensures ids == Some([]) ==> r == Success(map[])
    ensures r.Success? ==> forall a :: a in r.value <==> a in ids.value && exists l :: l in links && l.animeId == a
  {
    match ids
    case None => Failure("ids")
    case Some(xs) =>
      if xs == [] then Success(map[])
      else Success(Lookup(table, links, xs))
  }

  /** The empty-array shortcut agrees with the general lookup: no requested anime, no group. */
  lemma EmptyLookupAgrees(table: seq<Tag>, links: seq<AnimeTag>)
    ensures GetByAnimeIDs(table, links, Some([])) == Success(Lookup(table, links, []))
  {
    var m := Lookup(table, links, []);
    assert forall a :: a !in m;
  }

  /** Each anime's entry of the lookup holds, in order, exactly what `GetByAnimeID` resolves, the unresolved links as nulls. */
  lemma LookupMatchesGetByAnimeID(table: seq<Tag>, links: seq<AnimeTag>, ids: seq<int>, a: int)
    requires ids != [] && a in ids && a in Tagged(links)
    ensures var r := GetByAnimeIDs(table, links, Some(ids));
      && a in r.value
      && forall t :: t in GetByAnimeID(table, links, a) <==> Some(t) in r.value[a]
  {
    var m := Lookup(table, links, ids);
    var ls := LinksOf(links, a);
    forall t ensures t in GetByAnimeID(table, links, a) <==> Some(t) in m[a] {
      if t in GetByAnimeID(table, links, a) {
        var l :| l in ls && GetByTagID(table, l.tagId) == Some(t);
        var k :| 0 <= k < |ls| && ls[k] == l;
        assert m[a][k] == Some(t);
      }
      if Some(t) in m[a] {
        var k :| 0 <= k < |m[a]| && m[a][k] == Some(t);
        assert ls[k] in ls;
      }
    }
  }

  /** The links of every local series, series by series (`SelectMany`). */
  function SeriesLinks(links: seq<AnimeTag>, series: seq<int>): (r: seq<AnimeTag>)
    ensures forall l :: l in r <==> l in links && l.animeId in series
  {
    if series == [] then []
    else
      var rest := SeriesLinks(links, series[1..]);
      assert forall a :: a in series <==> a == series[0] || a in series[1..];
      LinksOf(links, series[0]) + rest
  }

  /** `Distinct()`: each element once, at its first position. */
  function Dedup<T(==,!new)>(s: seq<T>): (r: seq<T>)
    ensures Distinct(r)
    ensures forall x :: x in r <==> x in s
  {
    var r := GroupKeys(s, (x: T) => true, (x: T) => x);
    assert forall x :: x in s ==> x in r by {
      forall x | x in s ensures x in r {
        var i :| 0 <= i < |s| && s[i] == x;
      }
    }
    r
  }

  /**
   * `GetAllForLocalSeries` as written: the null filter runs on the links,
   * before they are resolved, so an unresolved tag id contributes a null.
   */
  function GetAllForLocalSeriesAsWritten(table: seq<Tag>, links: seq<AnimeTag>, series: seq<int>): (r: seq<Option<Tag>>)
    ensures Distinct(r)
    ensures forall o :: o in r <==> exists l :: l in links && l.animeId in series && GetByTagID(table, l.tagId) == o
  {
    var ls := SeriesLinks(links, series);
    var resolved := seq(|ls|, k requires 0 <= k < |ls| => GetByTagID(table, ls[k].tagId));
    assert forall o :: o in resolved <==> exists l :: l in ls && GetByTagID(table, l.tagId) == o by {
      forall o | (exists l :: l in ls && GetByTagID(table, l.tagId) == o) ensures o in resolved {
        var l :| l in ls && GetByTagID(table, l.tagId) == o;
        var k :| 0 <= k < |ls| && ls[k] == l;
        assert resolved[k] == o;
      }
    }
    Dedup(resolved)
  }

  /** A series linked to a tag that is not in the table puts a null in the result. */
  lemma AsWrittenYieldsNull()
    ensures None in GetAllForLocalSeriesAsWritten([], [AnimeTag(1, 7)], [1])
  {
    assert AnimeTag(1, 7) in [AnimeTag(1, 7)];
  }

  /** `GetAllForLocalSeries` with the null filter after resolution: the tags of local series, each once, no null. */
  function GetAllForLocalSeries(table: seq<Tag>, links: seq<AnimeTag>, series: seq<int>): (r: seq<Tag>)
    ensures Distinct(r)
    ensures forall t :: t in r <==> t in table && exists l :: l in links && l.animeId in series && GetByTagID(table, l.tagId) == Some(t)
  {
    Dedup(Resolve(table, SeriesLinks(links, series)))
  }

  /** The corrected result is the as-written one with the null removed. */
  lemma LocalSeriesTagsAgree(table: seq<Tag>, links: seq<AnimeTag>, series: seq<int>)
    ensures forall t :: t in GetAllForLocalSeries(table, links, series) <==> Some(t) in GetAllForLocalSeriesAsWritten(table, links, series)
  {
  }
}
