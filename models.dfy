/** The two tables of the catalogue, the records the API hands out, and the
    two things the database does for every resolver: scan a table in key
    order and allocate a primary key for a new row. */
module Models {

  /** A row of the podcast table. Its primary key is the key it is stored
      under, so the row itself holds only the title. */
  datatype Podcast = Podcast(title: string)

  /** A row of the episode table; `isPlayed` is false for a freshly created row. */
  datatype Episode = Episode(title: string, podcastId: int, isPlayed: bool)

  type PodcastTable = map<int, Podcast>
  type EpisodeTable = map<int, Episode>

  /** The episode record the API returns. */
  datatype EpisodeType = EpisodeType(id: int, title: string, podcastId: int, isPlayed: bool)

  /** The podcast record the API returns. */
  datatype PodcastType = PodcastType(id: int, title: string, episodeList: seq<EpisodeType>)

  /** The two exception classes the resolvers raise. */
  datatype Error = ValueError(message: string) | Exception(message: string)

  datatype Result<T> = Ok(value: T) | Err(error: Error)

  /** Copies the fields of the episode row stored under `id` into a record. */
  function ToEpisodeType(id: int, e: Episode): EpisodeType
  {
    EpisodeType(id, e.title, e.podcastId, e.isPlayed)
  }

  /** `x` is the record of a row that is stored in `episodes`. */
  ghost predicate IsRowOf(x: EpisodeType, episodes: EpisodeTable)
  {
    x.id in episodes && x == ToEpisodeType(x.id, episodes[x.id])
  }

  predicate Increasing(ids: seq<int>)
  {
    forall i, j :: 0 <= i < j < |ids| ==> ids[i] < ids[j]
  }

  predicate IdsIncreasing(rs: seq<EpisodeType>)
  {
    forall i, j :: 0 <= i < j < |rs| ==> rs[i].id < rs[j].id
  }

  predicate PodcastIdsIncreasing(ps: seq<PodcastType>)
  {
    forall i, j :: 0 <= i < j < |ps| ==> ps[i].id < ps[j].id
  }

  lemma ConsIncreasing(x: EpisodeType, rs: seq<EpisodeType>)
    requires IdsIncreasing(rs)
    requires forall y :: y in rs ==> x.id < y.id
    ensures IdsIncreasing([x] + rs)
  {
  }

  lemma NoMemberEmpty(keys: set<int>)
    requires forall k :: k !in keys
    ensures keys == {}
  {
    assert forall k :: k in keys <==> k in {};
  }

  lemma HasMember(keys: set<int>)
    requires keys != {}
    ensures exists k :: k in keys
  {
    if forall k :: k !in keys {
      NoMemberEmpty(keys);
      assert false;
    }
  }

  lemma {:induction false} LeastExists(keys: set<int>)
    requires keys != {}
    ensures exists m :: m in keys && forall k :: k in keys ==> m <= k
    decreases |keys|
  {
    HasMember(keys);
    var y :| y in keys;
    var rest := keys - {y};
    if rest == {} {
      forall k | k in keys ensures y <= k {
        assert k !in rest;
      }
    } else {
      LeastExists(rest);
      var m :| m in rest && forall k :: k in rest ==> m <= k;
      var least := if y < m then y else m;
      forall k | k in keys ensures least <= k {
        if k != y { assert k in rest; }
      }
      assert least in keys;
    }
  }

  /** The smallest key of a non-empty table. */
  function Least(keys: set<int>): (m: int)
    requires keys != {}
    ensures m in keys && forall k :: k in keys ==> m <= k
  {
    LeastExists(keys);
    var m :| m in keys && forall k :: k in keys ==> m <= k;
    m
  }

  /** The order in which a full-table `select` visits the rows: every key
      once, in ascending order (a scan of an SQLite rowid table). */
  function Scan(keys: set<int>): (ids: seq<int>)
    ensures Increasing(ids)
    ensures |ids| == |keys|
    ensures forall k :: k in ids <==> k in keys
    ensures forall i :: 0 <= i < |ids| ==> ids[i] in keys
    decreases |keys|
  {
    if keys == {} then []
    else
      var m := Least(keys);
      [m] + Scan(keys - {m})
  }

  /** The primary key the database gives a new row: one more than the
      largest key in the table, or 1 for an empty table. */
  function FreshId(keys: set<int>): (id: int)
    ensures id !in keys
    ensures forall k :: k in keys ==> k < id
    ensures keys == {} ==> id == 1
  {
    var ids := Scan(keys);
    if ids == [] then 1
    else
      var last := ids[|ids| - 1];
      assert forall k :: k in keys ==> k <= last by {
        forall k | k in keys ensures k <= last {
          var i :| 0 <= i < |ids| && ids[i] == k;
        }
      }
      last + 1
  }
}
