/** The read-only resolvers: `get_podcasts`, `get_episode` and
    `get_played_episode`, each a projection (and a filter) over a full scan
    of the tables. */
module Query {
  import opened Models

  /** The rows listed in `ids`, in that order, each copied into a record. */
  function Records(ids: seq<int>, episodes: EpisodeTable): seq<EpisodeType>
    requires forall i :: 0 <= i < |ids| ==> ids[i] in episodes
  {
    seq(|ids|, i requires 0 <= i < |ids| => ToEpisodeType(ids[i], episodes[ids[i]]))
  }

  /** get_episode: one record per episode row, in scan order. */
  function GetEpisode(episodes: EpisodeTable): (r: seq<EpisodeType>)
    ensures |r| == |episodes|
    ensures IdsIncreasing(r)
    ensures forall x :: x in r <==> IsRowOf(x, episodes)
  {
    var ids := Scan(episodes.Keys);
    var r := Records(ids, episodes);
    assert forall x :: x in r ==> IsRowOf(x, episodes);
    assert forall x :: IsRowOf(x, episodes) ==> x in r by {
      forall x | IsRowOf(x, episodes) ensures x in r {
        var i :| 0 <= i < |ids| && ids[i] == x.id;
        assert r[i] == x;
      }
    }
    r
  }

  /** The records of those rows listed in `ids` that `keep` accepts, in the
      order of `ids`: a comprehension over the scan with an `if` clause. */
  function Select(ids: seq<int>, episodes: EpisodeTable, keep: Episode -> bool): (r: seq<EpisodeType>)
    requires forall i :: 0 <= i < |ids| ==> ids[i] in episodes
    ensures forall x :: x in r <==> x.id in ids && IsRowOf(x, episodes) && keep(episodes[x.id])
    ensures Increasing(ids) ==> IdsIncreasing(r)
  {
    if ids == [] then []
    else
      var e := episodes[ids[0]];
      var rest := Select(ids[1..], episodes, keep);
      if keep(e) then [ToEpisodeType(ids[0], e)] + rest else rest
  }

  /** get_played_episode: the records of the played episodes, in scan order. */
  function GetPlayedEpisode(episodes: EpisodeTable): (r: seq<EpisodeType>)
    ensures IdsIncreasing(r)
    ensures forall x :: x in r <==> IsRowOf(x, episodes) && x.isPlayed
  {
    Select(Scan(episodes.Keys), episodes, (e: Episode) => e.isPlayed)
  }

  /** The relationship `Podcast.episode_list`: the episodes whose podcast_id
      is `podcastId`, in scan order. */
  function EpisodeList(episodes: EpisodeTable, podcastId: int): (r: seq<EpisodeType>)
    ensures IdsIncreasing(r)
    ensures forall x :: x in r <==> IsRowOf(x, episodes) && x.podcastId == podcastId
  {
    Select(Scan(episodes.Keys), episodes, (e: Episode) => e.podcastId == podcastId)
  }

  /** `p` is the record of a podcast row of `podcasts`, carrying the
      episodes that reference it. */
  ghost predicate IsPodcastOf(p: PodcastType, podcasts: PodcastTable, episodes: EpisodeTable)
  {
    p.id in podcasts && p.title == podcasts[p.id].title && p.episodeList == EpisodeList(episodes, p.id)
  }

  /** The podcast rows listed in `ids`, in that order, each copied into a
      record together with its episode list. */
  function PodcastRecords(ids: seq<int>, podcasts: PodcastTable, episodes: EpisodeTable): seq<PodcastType>
    requires forall i :: 0 <= i < |ids| ==> ids[i] in podcasts
  {
    seq(|ids|, i requires 0 <= i < |ids| =>
      PodcastType(ids[i], podcasts[ids[i]].title, EpisodeList(episodes, ids[i])))
  }

  lemma PodcastRecordsListed(ids: seq<int>, podcasts: PodcastTable, episodes: EpisodeTable)
    requires Increasing(ids)
    requires forall i :: 0 <= i < |ids| ==> ids[i] in podcasts
    requires forall k :: k in podcasts ==> k in ids
    ensures PodcastIdsIncreasing(PodcastRecords(ids, podcasts, episodes))
    ensures forall p :: p in PodcastRecords(ids, podcasts, episodes) <==> IsPodcastOf(p, podcasts, episodes)
  {
    var r := PodcastRecords(ids, podcasts, episodes);
    forall p | p in r ensures IsPodcastOf(p, podcasts, episodes) {
      var i :| 0 <= i < |r| && r[i] == p;
    }
    forall p | IsPodcastOf(p, podcasts, episodes) ensures p in r {
      var i :| 0 <= i < |ids| && ids[i] == p.id;
      assert r[i] == p;
    }
  }

  /** get_podcasts: one record per podcast row, in scan order, each with the
      episodes that reference it. */
  function GetPodcasts(podcasts: PodcastTable, episodes: EpisodeTable): (r: seq<PodcastType>)
    ensures |r| == |podcasts|
    ensures PodcastIdsIncreasing(r)
    ensures forall p :: p in r <==> IsPodcastOf(p, podcasts, episodes)
  {
    var ids := Scan(podcasts.Keys);
    PodcastRecordsListed(ids, podcasts, episodes);
    PodcastRecords(ids, podcasts, episodes)
  }

  /** Keeps the records that `keep` accepts, in their order. */
  function Where(rs: seq<EpisodeType>, keep: EpisodeType -> bool): (r: seq<EpisodeType>)
    ensures forall x :: x in r <==> x in rs && keep(x)
    ensures IdsIncreasing(rs) ==> IdsIncreasing(r)
  {
    if rs == [] then []
    else
      var rest := Where(rs[1..], keep);
      assert IdsIncreasing(rs) ==> IdsIncreasing([rs[0]] + rest) by {
        if IdsIncreasing(rs) {
          forall x | x in rest ensures rs[0].id < x.id {
            var k :| 1 <= k < |rs| && rs[k] == x;
          }
          ConsIncreasing(rs[0], rest);
        }
      }
      if keep(rs[0]) then [rs[0]] + rest else rest
  }

  lemma HeadIn(a: seq<EpisodeType>)
    requires a != []
    ensures a[0] in a
  {
  }

  /** Two lists in increasing id order with the same records start alike. */
  lemma SameHead(a: seq<EpisodeType>, b: seq<EpisodeType>)
    requires IdsIncreasing(a) && IdsIncreasing(b)
    requires forall x :: x in a <==> x in b
    requires a != [] && b != []
    ensures a[0] == b[0]
  {
    HeadIn(a);
    HeadIn(b);
    var i :| 0 <= i < |b| && b[i] == a[0];
    var j :| 0 <= j < |a| && a[j] == b[0];
    assert a[0].id <= a[j].id;
    assert b[0].id <= b[i].id;
  }

  /** ... and, having the same head, hold the same records after it. */
  lemma SameTail(a: seq<EpisodeType>, b: seq<EpisodeType>)
    requires IdsIncreasing(a) && IdsIncreasing(b)
    requires forall x :: x in a <==> x in b
    requires a != [] && b != [] && a[0] == b[0]
    ensures forall x :: x in a[1..] <==> x in b[1..]
  {
    forall x | x in a[1..] ensures x in b[1..] {
      var k :| 1 <= k < |a| && a[k] == x;
      assert x in a;
      var m :| 0 <= m < |b| && b[m] == x;
      assert m != 0 by { assert a[0].id < a[k].id; }
      assert b[m] == b[1..][m - 1];
    }
    forall x | x in b[1..] ensures x in a[1..] {
      var k :| 1 <= k < |b| && b[k] == x;
      assert x in b;
      var m :| 0 <= m < |a| && a[m] == x;
      assert m != 0 by { assert b[0].id < b[k].id; }
      assert a[m] == a[1..][m - 1];
    }
  }

  /** Two record lists in increasing id order that hold the same records are
      the same list. */
  lemma {:induction false} IncreasingUnique(a: seq<EpisodeType>, b: seq<EpisodeType>)
    requires IdsIncreasing(a) && IdsIncreasing(b)
    requires forall x :: x in a <==> x in b
    ensures a == b
    decreases |a|
  {
    if a != [] && b != [] {
      SameHead(a, b);
      SameTail(a, b);
      IncreasingUnique(a[1..], b[1..]);
      assert a == [a[0]] + a[1..];
      assert b == [b[0]] + b[1..];
    } else if a != [] {
      HeadIn(a);
      assert false;
    } else if b != [] {
      HeadIn(b);
      assert false;
    }
  }

  /** get_played_episode lists exactly the played records of get_episode, in
      the same relative order. */
  lemma PlayedIsFilterOfAll(episodes: EpisodeTable)
    ensures GetPlayedEpisode(episodes) == Where(GetEpisode(episodes), (x: EpisodeType) => x.isPlayed)
  {
    IncreasingUnique(GetPlayedEpisode(episodes), Where(GetEpisode(episodes), (x: EpisodeType) => x.isPlayed));
  }

  /** A podcast's episode list is the sub-list of get_episode whose
      podcast_id is the podcast's id, in the same relative order. */
  lemma EpisodeListIsFilterOfAll(episodes: EpisodeTable, podcastId: int)
    ensures EpisodeList(episodes, podcastId) ==
      Where(GetEpisode(episodes), (x: EpisodeType) => x.podcastId == podcastId)
  {
    IncreasingUnique(EpisodeList(episodes, podcastId),
      Where(GetEpisode(episodes), (x: EpisodeType) => x.podcastId == podcastId));
  }
}
