/** `transform`: map every loaded record to a `Post`, then sort newest first. */
module PostIndex {
  import opened UtcTime
  import opened Posts
  import opened PostOrder

  /** Dates the comparator can order consistently: every front-matter date
      parsed, and none is the one instant whose noon leaves the time range.
      The source does not check this; with a NaN time in the list the order
      `sort` produces is implementation-defined. */
  predicate SortableDates(raw: seq<RawRecord>) {
    forall i :: 0 <= i < |raw| ==> raw[i].frontmatter.date.Ms? && raw[i].frontmatter.date.ms != MaxTime
  }

  /** `raw.map(...)`: one post per record, in input order. */
  function MapRecords(raw: seq<RawRecord>, render: int -> string): (r: seq<Post>)
    ensures |r| == |raw|
    ensures forall i :: 0 <= i < |r| ==> r[i] == ToPost(raw[i], render)
    ensures SortableDates(raw) ==> AllTimed(r)
    decreases |raw|
  {
    if raw == [] then []
    else [ToPost(raw[0], render)] + MapRecords(raw[1..], render)
  }

  /** The whole transform. Nothing is dropped or merged, the result is newest
      first, equally-dated posts keep their input order, and every post's
      UTC hour reads 12 (its minutes, seconds and milliseconds are those
      of the front-matter date). */
  function Transform(raw: seq<RawRecord>, render: int -> string): (r: seq<Post>)
    requires SortableDates(raw)
    ensures |r| == |raw|
    ensures AllTimed(r) && AllTimed(MapRecords(raw, render))
    ensures multiset(r) == multiset(MapRecords(raw, render))
    ensures forall i :: 0 <= i < |r| - 1 ==> TimeOf(r[i]) >= TimeOf(r[i + 1])
    ensures forall k :: DatedAt(r, k) == DatedAt(MapRecords(raw, render), k)
    ensures forall i :: 0 <= i < |r| ==> HourFromTime(TimeOf(r[i])) == NoonHour
  {
    var mapped := MapRecords(raw, render);
    var r := Sort(mapped);
    AdjacentNewestFirst(r);
    assert |r| == |mapped| by {
      assert |multiset(r)| == |multiset(mapped)|;
    }
    assert forall k :: DatedAt(r, k) == DatedAt(mapped, k) by {
      forall k
        ensures DatedAt(r, k) == DatedAt(mapped, k)
      {
        SortDatedAt(mapped, k);
      }
    }
    assert forall i :: 0 <= i < |r| ==> HourFromTime(TimeOf(r[i])) == NoonHour by {
      forall i | 0 <= i < |r|
        ensures HourFromTime(TimeOf(r[i])) == NoonHour
      {
        assert r[i] in multiset(mapped);
        var j :| 0 <= j < |mapped| && mapped[j] == r[i];
        assert r[i].date == FormatDate(raw[j].frontmatter.date, render);
      }
    }
    r
  }

  /** The posts' URLs, in index order. */
  function Urls(s: seq<Post>): (u: seq<string>)
    ensures |u| == |s|
    decreases |s|
  {
    if s == [] then [] else [s[0].url] + Urls(s[1..])
  }

  /** The loaded records' URLs, in load order. */
  function RawUrls(raw: seq<RawRecord>): seq<string> {
    seq(|raw|, i requires 0 <= i < |raw| => raw[i].url)
  }

  lemma UrlsCons(p: Post, s: seq<Post>)
    ensures Urls([p] + s) == [p.url] + Urls(s)
  {
    assert ([p] + s)[1..] == s;
  }

  /** Inserting a post adds exactly its URL. */
  lemma {:induction false} InsertUrls(p: Post, s: seq<Post>)
    requires Timed(p) && AllTimed(s)
    ensures multiset(Urls(Insert(p, s))) == multiset(Urls(s)) + multiset{p.url}
    decreases |s|
  {
    UrlsCons(p, s);
    if s != [] && Compare(p, s[0]) > 0 {
      InsertUrls(p, s[1..]);
      UrlsCons(s[0], Insert(p, s[1..]));
      UrlsCons(s[0], s[1..]);
      assert [s[0]] + s[1..] == s;
    }
  }

  lemma {:induction false} SortUrls(s: seq<Post>)
    requires AllTimed(s)
    ensures multiset(Urls(Sort(s))) == multiset(Urls(s))
    decreases |s|
  {
    if s != [] {
      var rest := Sort(s[1..]);
      assert Sort(s) == Insert(s[0], rest);
      SortUrls(s[1..]);
      InsertUrls(s[0], rest);
      assert Urls(s) == [s[0].url] + Urls(s[1..]);
    }
  }

  lemma {:induction false} MapRecordsUrls(raw: seq<RawRecord>, render: int -> string)
    ensures Urls(MapRecords(raw, render)) == RawUrls(raw)
    decreases |raw|
  {
    if raw != [] {
      MapRecordsUrls(raw[1..], render);
      UrlsCons(ToPost(raw[0], render), MapRecords(raw[1..], render));
      assert RawUrls(raw) == [raw[0].url] + RawUrls(raw[1..]);
    }
  }

  /** No deduplication: each URL occurs in the index exactly as often as
      among the loaded records, duplicates included. */
  lemma UrlsPreserved(raw: seq<RawRecord>, render: int -> string)
    requires SortableDates(raw)
    ensures multiset(Urls(Transform(raw, render))) == multiset(RawUrls(raw))
  {
    SortUrls(MapRecords(raw, render));
    MapRecordsUrls(raw, render);
  }

  /** The index is the one a conforming engine must produce: any newest-first
      arrangement of the mapped posts that keeps equally-dated posts in input
      order is equal to it. */
  lemma TransformDetermined(raw: seq<RawRecord>, render: int -> string, out: seq<Post>)
    requires SortableDates(raw)
    requires AllTimed(out) && NewestFirst(out)
    requires forall k :: DatedAt(out, k) == DatedAt(MapRecords(raw, render), k)
    ensures out == Transform(raw, render)
  {
    SortIsTheStableSort(MapRecords(raw, render), out);
  }
}
