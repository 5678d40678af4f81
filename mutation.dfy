/** The resolvers that change the catalogue: `create_podcast`,
    `create_episode`, `mark_episode_played`, `remove_podcast` and
    `remove_episode`. Each runs as one atomic step on the store; a database
    session's `get` is a map lookup, `add` followed by `commit` a map update
    and `delete` a map removal. */
module Mutation {
  import opened Models
  import opened Query

  /** The two tables, updated in place by the resolvers. */
  class Store {
    var podcasts: PodcastTable
    var episodes: EpisodeTable

    /** An empty catalogue. */
    constructor ()
      ensures podcasts == map[] && episodes == map[]
    {
      podcasts := map[];
      episodes := map[];
    }

    /** create_podcast: inserts a row under a key the table does not hold and
        returns its record with an empty episode list. */
    method CreatePodcast(title: string) returns (r: PodcastType)
      modifies this
      ensures r.id !in old(podcasts)
      ensures r.title == title && r.episodeList == []
      ensures podcasts == old(podcasts)[r.id := Podcast(title)]
      ensures episodes == old(episodes)
    {
      var id := FreshId(podcasts.Keys);
      podcasts := podcasts[id := Podcast(title)];
      r := PodcastType(id, title, []);
    }

    /** create_episode: inserts an unplayed row under a key the table does
        not hold. Whether `podcastId` names a podcast is not checked. */
    method CreateEpisode(title: string, podcastId: int) returns (r: EpisodeType)
      modifies this
      ensures r.id !in old(episodes)
      ensures r.title == title && r.podcastId == podcastId && !r.isPlayed
      ensures episodes == old(episodes)[r.id := Episode(title, podcastId, false)]
      ensures podcasts == old(podcasts)
    {
      var id := FreshId(episodes.Keys);
      episodes := episodes[id := Episode(title, podcastId, false)];
      r := EpisodeType(id, title, podcastId, false);
    }

    /** mark_episode_played: sets `isPlayed` of one stored episode and
        returns the stored record; fails, changing nothing, on a missing id. */
    method MarkEpisodePlayed(episodeId: int) returns (r: Result<EpisodeType>)
      modifies this
      ensures r.Ok? <==> episodeId in old(episodes)
      ensures episodeId !in old(episodes) ==>
        r == Err(ValueError("Episode not found")) && episodes == old(episodes)
      ensures episodeId in old(episodes) ==>
        episodes == old(episodes)[episodeId := old(episodes)[episodeId].(isPlayed := true)]
      ensures r.Ok? ==> r.value == ToEpisodeType(episodeId, episodes[episodeId])
      ensures podcasts == old(podcasts)
    {
      if episodeId !in episodes {
        return Err(ValueError("Episode not found"));
      }
      var episode := episodes[episodeId];
      episodes := episodes[episodeId := episode.(isPlayed := true)];
      r := Ok(ToEpisodeType(episodeId, episodes[episodeId]));
    }

    /** remove_podcast: deletes one podcast row and returns the record it had
        just before; fails, changing nothing, on a missing id. What happens
        to the episodes that reference the podcast is decided by the ORM;
        this model leaves the episode table alone, promises nothing
        about it, and always succeeds on a stored id. */
    method RemovePodcast(podcastId: int) returns (r: Result<PodcastType>)
      modifies this
      ensures r.Ok? <==> podcastId in old(podcasts)
      ensures podcastId !in old(podcasts) ==>
        r == Err(Exception("Podcast not found")) && podcasts == old(podcasts) && episodes == old(episodes)
      ensures podcastId in old(podcasts) ==>
        && r == Ok(PodcastType(podcastId, old(podcasts)[podcastId].title, EpisodeList(old(episodes), podcastId)))
        && podcasts == old(podcasts) - {podcastId}
    {
      if podcastId !in podcasts {
        return Err(Exception("Podcast not found"));
      }
      var podcast := podcasts[podcastId];
      r := Ok(PodcastType(podcastId, podcast.title, EpisodeList(episodes, podcastId)));
      podcasts := podcasts - {podcastId};
    }

    /** remove_episode: deletes one episode row and returns the record it had
        just before; fails, changing nothing, on a missing id. */
    method RemoveEpisode(episodeId: int) returns (r: Result<EpisodeType>)
      modifies this
      ensures r.Ok? <==> episodeId in old(episodes)
      ensures episodeId !in old(episodes) ==>
        r == Err(Exception("Episode not found")) && episodes == old(episodes)
      ensures episodeId in old(episodes) ==>
        && r == Ok(ToEpisodeType(episodeId, old(episodes)[episodeId]))
        && episodes == old(episodes) - {episodeId}
      ensures podcasts == old(podcasts)
    {
      if episodeId !in episodes {
        return Err(Exception("Episode not found"));
      }
      r := Ok(ToEpisodeType(episodeId, episodes[episodeId]));
      episodes := episodes - {episodeId};
    }
  }

  /** Every episode names a podcast that is stored. create_episode does not
      check it, so a resolver can break it. What becomes of a removed
      podcast's episodes is decided by the ORM; `RemovePodcast` leaves the
      episode table alone. */
  ghost predicate ReferencesExist(podcasts: PodcastTable, episodes: EpisodeTable)
  {
    forall k :: k in episodes ==> episodes[k].podcastId in podcasts
  }

  /** After create_podcast, get_podcasts lists the new podcast with whatever
      episodes already carry its id, and every podcast it listed before. */
  lemma CreatedPodcastListed(podcasts: PodcastTable, episodes: EpisodeTable, id: int, title: string)
    requires id !in podcasts
    ensures PodcastType(id, title, EpisodeList(episodes, id)) in GetPodcasts(podcasts[id := Podcast(title)], episodes)
    ensures forall p :: p in GetPodcasts(podcasts, episodes) ==> p in GetPodcasts(podcasts[id := Podcast(title)], episodes)
    ensures |GetPodcasts(podcasts[id := Podcast(title)], episodes)| == |GetPodcasts(podcasts, episodes)| + 1
  {
    var after := podcasts[id := Podcast(title)];
    var before, now := GetPodcasts(podcasts, episodes), GetPodcasts(after, episodes);
    assert IsPodcastOf(PodcastType(id, title, EpisodeList(episodes, id)), after, episodes);
    forall p | p in before ensures p in now {
      assert IsPodcastOf(p, podcasts, episodes);
      assert IsPodcastOf(p, after, episodes);
    }
    assert |now| == |before| + 1 by {
      assert after.Keys == podcasts.Keys + {id};
      assert |after.Keys| == |podcasts.Keys| + 1;
    }
  }

  /** When every episode names a stored podcast, the record create_podcast
      returns (empty episode list) is exactly what get_podcasts shows next. */
  lemma CreatedPodcastListedEmpty(podcasts: PodcastTable, episodes: EpisodeTable, id: int, title: string)
    requires ReferencesExist(podcasts, episodes)
    requires id !in podcasts
    ensures PodcastType(id, title, []) in GetPodcasts(podcasts[id := Podcast(title)], episodes)
  {
    var list := EpisodeList(episodes, id);
    if list != [] {
      HeadIn(list);
      assert false;
    }
  }

  /** Without that condition it fails: an episode created for podcast 1
      before any podcast exists is listed under the podcast that
      create_podcast then creates, whose returned record says it has none. */
  lemma DanglingEpisodeShowsUp()
    ensures
      var episodes := map[1 := Episode("Ep1", 1, false)];
      var id := FreshId({});
      var podcasts := map[id := Podcast("Tech Talk")];
      && !ReferencesExist(map[], episodes)
      && PodcastType(id, "Tech Talk", []) !in GetPodcasts(podcasts, episodes)
      && PodcastType(id, "Tech Talk", [EpisodeType(1, "Ep1", 1, false)]) in GetPodcasts(podcasts, episodes)
  {
    var episodes := map[1 := Episode("Ep1", 1, false)];
    var id := FreshId({});
    var podcasts := map[id := Podcast("Tech Talk")];
    var x := EpisodeType(1, "Ep1", 1, false);
    assert id == 1;
    assert IsRowOf(x, episodes);
    assert x in EpisodeList(episodes, id);
    assert EpisodeList(episodes, id) == [x] by {
      forall y ensures y in EpisodeList(episodes, id) <==> y in [x] {
        if y in EpisodeList(episodes, id) {
          assert y.id in episodes;
        }
      }
      IncreasingUnique(EpisodeList(episodes, id), [x]);
    }
    assert IsPodcastOf(PodcastType(id, "Tech Talk", [x]), podcasts, episodes);
    assert !IsPodcastOf(PodcastType(id, "Tech Talk", []), podcasts, episodes);
  }

  /** After create_episode, get_episode holds exactly the old records plus
      the new unplayed one, get_played_episode is unchanged, and the record
      joins the episode list of the podcast it names. */
  lemma CreatedEpisodeListed(
    podcasts: PodcastTable, episodes: EpisodeTable, id: int, title: string, podcastId: int)
    requires id !in episodes
    ensures
      var after := episodes[id := Episode(title, podcastId, false)];
      && (forall x :: x in GetEpisode(after) <==>
            x in GetEpisode(episodes) || x == EpisodeType(id, title, podcastId, false))
      && GetPlayedEpisode(after) == GetPlayedEpisode(episodes)
      && EpisodeType(id, title, podcastId, false) in EpisodeList(after, podcastId)
  {
    var after := episodes[id := Episode(title, podcastId, false)];
    assert IsRowOf(EpisodeType(id, title, podcastId, false), after);
    forall x ensures x in GetEpisode(after) <==>
      x in GetEpisode(episodes) || x == EpisodeType(id, title, podcastId, false)
    {
      if x.id != id {
        assert IsRowOf(x, after) <==> IsRowOf(x, episodes);
      }
    }
    forall x ensures x in GetPlayedEpisode(after) <==> x in GetPlayedEpisode(episodes) {
      if x.id != id {
        assert IsRowOf(x, after) <==> IsRowOf(x, episodes);
      }
    }
    IncreasingUnique(GetPlayedEpisode(after), GetPlayedEpisode(episodes));
  }

  /** After mark_episode_played on a stored id, get_played_episode holds the
      records it held before plus the marked one, and nothing else. */
  lemma MarkedEpisodeListedPlayed(episodes: EpisodeTable, id: int)
    requires id in episodes
    ensures
      var after := episodes[id := episodes[id].(isPlayed := true)];
      forall x :: x in GetPlayedEpisode(after) <==>
        x in GetPlayedEpisode(episodes) || x == ToEpisodeType(id, after[id])
  {
    var after := episodes[id := episodes[id].(isPlayed := true)];
    forall x ensures x in GetPlayedEpisode(after) <==>
      x in GetPlayedEpisode(episodes) || x == ToEpisodeType(id, after[id])
    {
      if x.id == id {
        assert IsRowOf(x, after) && x.isPlayed <==> x == ToEpisodeType(id, after[id]);
        assert IsRowOf(x, episodes) && x.isPlayed ==> x == ToEpisodeType(id, after[id]);
      } else {
        assert IsRowOf(x, after) <==> IsRowOf(x, episodes);
      }
    }
  }

  /** After mark_episode_played, get_episode lists the same rows in the same
      order, and only the marked row's record differs, in `isPlayed` alone. */
  lemma MarkedEpisodeOnlyChange(episodes: EpisodeTable, id: int)
    requires id in episodes
    ensures
      var before := GetEpisode(episodes);
      var after := GetEpisode(episodes[id := episodes[id].(isPlayed := true)]);
      && |after| == |before|
      && forall i :: 0 <= i < |before| ==>
           after[i] == if before[i].id == id then before[i].(isPlayed := true) else before[i]
  {
    var changed := episodes[id := episodes[id].(isPlayed := true)];
    assert changed.Keys == episodes.Keys;
  }

  /** Marking an episode played a second time changes nothing more. */
  lemma MarkPlayedIdempotent(episodes: EpisodeTable, id: int)
    requires id in episodes
    ensures
      var once := episodes[id := episodes[id].(isPlayed := true)];
      once[id := once[id].(isPlayed := true)] == once
  {
  }

  /** remove_podcast's snapshot is the record get_podcasts listed for that
      id just before; afterwards get_podcasts lists every other podcast
      and not that one, with the episode table unchanged. */
  lemma RemovedPodcastUnlisted(
    podcasts: PodcastTable, episodes: EpisodeTable, id: int)
    requires id in podcasts
    ensures PodcastType(id, podcasts[id].title, EpisodeList(episodes, id)) in GetPodcasts(podcasts, episodes)
    ensures forall p :: p in GetPodcasts(podcasts - {id}, episodes) <==>
      p in GetPodcasts(podcasts, episodes) && p.id != id
    ensures |GetPodcasts(podcasts - {id}, episodes)| == |GetPodcasts(podcasts, episodes)| - 1
  {
    var after := podcasts - {id};
    assert IsPodcastOf(PodcastType(id, podcasts[id].title, EpisodeList(episodes, id)), podcasts, episodes);
    forall p ensures p in GetPodcasts(after, episodes) <==> p in GetPodcasts(podcasts, episodes) && p.id != id {
      if p.id != id {
        assert IsPodcastOf(p, after, episodes) <==> IsPodcastOf(p, podcasts, episodes);
      }
    }
    assert after.Keys == podcasts.Keys - {id};
  }

  lemma RemovedEpisodeMembers(episodes: EpisodeTable, id: int)
    ensures forall x :: x in GetEpisode(episodes - {id}) <==> x in GetEpisode(episodes) && x.id != id
  {
    forall x ensures x in GetEpisode(episodes - {id}) <==> x in GetEpisode(episodes) && x.id != id {
      assert IsRowOf(x, episodes - {id}) <==> IsRowOf(x, episodes) && x.id != id;
    }
  }

  /** remove_episode's snapshot is the record get_episode listed for that id
      just before; afterwards get_episode is the old list without it. */
  lemma RemovedEpisodeUnlisted(episodes: EpisodeTable, id: int)
    requires id in episodes
    ensures ToEpisodeType(id, episodes[id]) in GetEpisode(episodes)
    ensures GetEpisode(episodes - {id}) == Where(GetEpisode(episodes), (x: EpisodeType) => x.id != id)
  {
    assert IsRowOf(ToEpisodeType(id, episodes[id]), episodes);
    RemovedEpisodeMembers(episodes, id);
    IncreasingUnique(GetEpisode(episodes - {id}), Where(GetEpisode(episodes), (x: EpisodeType) => x.id != id));
  }

  /** A session on an empty catalogue: create a podcast, create an episode
      for it, mark the episode played, then list the played episodes. */
  method TechTalkSession() returns (podcast: PodcastType, marked: Result<EpisodeType>, played: seq<EpisodeType>)
    ensures podcast.title == "Tech Talk" && podcast.episodeList == []
    ensures marked.Ok?
    ensures marked.value.title == "Ep1" && marked.value.podcastId == podcast.id && marked.value.isPlayed
    ensures played == [marked.value]
  {
    var store := new Store();
    podcast := store.CreatePodcast("Tech Talk");
    var episode := store.CreateEpisode("Ep1", podcast.id);
    marked := store.MarkEpisodePlayed(episode.id);
    played := GetPlayedEpisode(store.episodes);
    assert store.episodes == map[episode.id := Episode("Ep1", podcast.id, true)];
    forall x ensures x in played <==> x in [marked.value] {
      if x in played {
        assert x.id in store.episodes;
      }
    }
    IncreasingUnique(played, [marked.value]);
  }
}
