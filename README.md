# Podcast catalogue: a Dafny model

This project models the catalogue behind a small GraphQL podcast API
(`app.py`). The catalogue has two tables. `podcast` rows hold an id and a
title. `episode` rows hold an id, a title, the id of the podcast they
belong to (`podcast_id`) and an `isPlayed` flag that starts out false. A
podcast's `episode_list` is not stored: it is every episode whose
`podcast_id` is the podcast's id.

Eight resolvers work on the tables:

- three queries, each a projection of a full table scan:
  - `get_podcasts` lists every podcast with its episode list;
  - `get_episode` lists every episode;
  - `get_played_episode` lists the played episodes;
- five mutations:
  - `create_podcast` and `create_episode` insert a row under a fresh id;
  - `mark_episode_played` sets one episode's flag;
  - `remove_podcast` and `remove_episode` delete a row and return its
    last state.

The last three fail with a "not found" error, and change nothing, when the
id is not in its table.

The model has three modules:

- `Models` (`models.dfy`) holds the rows (`Podcast`, `Episode`), the
  records the API returns (`PodcastType`, `EpisodeType`), the error kinds,
  and the two services the database provides. `Scan` is the order in which
  a full-table `select` visits rows. `FreshId` is the primary key given to
  a new row.
- `Query` (`query.dfy`) holds the three queries. They are functions over
  the two tables, which are maps from primary key to row.
- `Mutation` (`mutation.dfy`) holds the class `Store`. Its two map fields
  are the tables, and the five mutations are methods that update them in
  place. Each runs as one atomic step: the session's `get` is a map
  lookup, `add` plus `commit` is a map update, and `delete` is a map
  removal. Beside the class are lemmas about what the queries return after
  each mutation.

Decisions taken where the code leaves things open:

- **Scan order.** The queries have no `ORDER BY`, so the order of rows is
  the database's choice. The model scans in ascending primary key, which is
  how SQLite scans a rowid table. The two episode queries use the same
  scan, so `PlayedIsFilterOfAll` holds whatever that order is.
- **Fresh ids.** `FreshId` follows SQLite's rule for rowid tables: one more
  than the largest key, or 1 for an empty table. The mutations promise only
  that the new id is not in the table at that moment. Once the row with the
  largest id is deleted, its id can be handed out again.
- **No referential check.** The code does not check referential integrity.
  `create_episode` accepts any `podcast_id`, so an episode can name a
  podcast that is not stored. Then `create_podcast`
  returns an empty episode list even when episodes carrying the new id are
  already stored, and the next `get_podcasts` then lists them under it.
  `CreatedPodcastListedEmpty` proves that the two agree when every episode
  names a stored podcast. `DanglingEpisodeShowsUp` shows a store where they
  disagree.
- **No "mark unplayed".** The only operation on `isPlayed` sets it to
  true.
- **Removing a podcast.** What becomes of a removed podcast's episodes is
  decided by the ORM (app.py:14, app.py:19-20, app.py:121). The model's
  `RemovePodcast` leaves the episode table alone, and its contract
  promises nothing about it.
- **Error kinds.** `mark_episode_played` raises `ValueError`. The two
  removals raise a plain `Exception`. The model keeps the two kinds and the
  messages apart.

## Model

| member | source | states |
|---|---|---|
| `Models.Scan` | app.py:43 | a full-table select visits every key of the table exactly once, in increasing key order |
| `Models.FreshId` | app.py:12 | the key the database gives a new row is not in the table and exceeds every key in it; it is 1 when the table is empty |
| `Query.GetEpisode` | app.py:57-64 | get_episode returns one record per episode row, as many as there are rows, in increasing id order; each record carries its row's id, title, podcast_id and isPlayed |
| `Query.Select` | app.py:69-72 | a comprehension over a scan with an `if` clause keeps exactly the records of the listed rows the condition accepts, in the scan's order |
| `Query.GetPlayedEpisode` | app.py:65-72 | get_played_episode returns exactly the records of stored rows whose isPlayed is true, in increasing id order |
| `Query.EpisodeList` | app.py:14-20 | a podcast's episode_list holds exactly the records of the episode rows whose podcast_id is that podcast's id, in increasing id order |
| `Query.GetPodcasts` | app.py:40-54 | get_podcasts returns one record per podcast row, in increasing id order, with the row's id and title; each record's episode_list is the episode list of that id |
| `Query.PlayedIsFilterOfAll` | app.py:57-72 | get_played_episode equals get_episode filtered on isPlayed, so it holds the same records in the same relative order |
| `Query.EpisodeListIsFilterOfAll` | app.py:48-51 | each podcast's episode_list equals get_episode filtered on podcast_id equal to the podcast's id |
| `Mutation.Store.constructor` | app.py:23 | a new store has two empty tables |
| `Mutation.Store.CreatePodcast` | app.py:76-83 | the returned id was not in the podcast table; the title is the argument and the episode list is empty; the podcast table gains exactly that row; the episode table is unchanged |
| `Mutation.Store.CreateEpisode` | app.py:85-92 | it always succeeds, whether or not podcast_id names a podcast; the returned id was not in the episode table; the episode table gains exactly the row (title, podcast_id, not played); the returned record matches it; the podcast table is unchanged |
| `Mutation.Store.MarkEpisodePlayed` | app.py:96-111 | on a missing id it fails with ValueError("Episode not found") and changes nothing; otherwise it sets that row's isPlayed to true, leaves every other field and row alone, and returns the stored record |
| `Mutation.Store.RemovePodcast` | app.py:114-123 | on a missing id it fails with Exception("Podcast not found") and changes nothing; otherwise it returns the row's id and title with its episode list before deletion, and removes exactly that key from the podcast table |
| `Mutation.Store.RemoveEpisode` | app.py:125-134 | on a missing id it fails with Exception("Episode not found") and changes nothing; otherwise it returns the row's id, title, podcast_id and isPlayed before deletion, removes exactly that key from the episode table, and leaves the podcast table unchanged |
| `Mutation.CreatedPodcastListed` | app.py:77-83 | after inserting a podcast under a fresh id, get_podcasts lists it with the episodes already carrying that id, still lists every podcast it listed before, and grows by one |
| `Mutation.CreatedPodcastListedEmpty` | app.py:83 | if every episode names a stored podcast, get_podcasts lists the new podcast with an empty episode list, exactly as create_podcast returned it |
| `Mutation.DanglingEpisodeShowsUp` | app.py:86-92 | an episode created for podcast 1 before any podcast exists is listed under the podcast created next, not the empty list create_podcast returned |
| `Mutation.CreatedEpisodeListed` | app.py:86-92 | after create_episode, get_episode holds exactly the old records plus the new unplayed one, get_played_episode is unchanged, and the record is in the episode list of the podcast id it names |
| `Mutation.MarkedEpisodeListedPlayed` | app.py:97-111 | after mark_episode_played, get_played_episode holds exactly the records it held before plus the marked one |
| `Mutation.MarkedEpisodeOnlyChange` | app.py:102 | after mark_episode_played, get_episode lists the same rows in the same order; only the marked row's record differs, and only in isPlayed, which becomes true |
| `Mutation.MarkPlayedIdempotent` | app.py:102 | marking the same episode played twice leaves the table as marking it once |
| `Mutation.RemovedPodcastUnlisted` | app.py:115-123 | remove_podcast's snapshot is the record get_podcasts listed for that id just before; with the episode table as it is, get_podcasts afterwards lists every other podcast and not that one, and shrinks by one |
| `Mutation.RemovedEpisodeUnlisted` | app.py:126-134 | remove_episode's snapshot is the record get_episode listed for that id just before; afterwards get_episode is the old list without that record, in the same order |
| `Mutation.TechTalkSession` | app.py:77-111 | on an empty store: create podcast "Tech Talk", create episode "Ep1" for it and mark that episode played; the played list is then exactly that one played record |

## Left out

- The Flask application and the GraphQL HTTP view (app.py:137-141) are
  left out. They are transport and user interface.
- The Strawberry decorators and schema construction (app.py:25-36,
  app.py:135) are left out. `EpisodeType` and `PodcastType` are plain
  datatypes here.
- The engine, the SQLite file URL, `echo` logging and `create_all`
  (app.py:8-9, app.py:23) are left out. They are database I/O and setup.
  The model starts from an empty store.
- The session lifecycle (`with Session(...)`, `commit`, `refresh`) is left
  out. Each resolver is one atomic state change. Transactions, connection
  release and concurrent requests are not modelled.
- Ids are unbounded integers. SQLite picks a random unused rowid once the
  largest key reaches 2^63-1. `FreshId` does not model that case.
- `isPlayed` is an optional column in the table, but no resolver ever
  writes a null to it. The model stores a plain boolean.
- Mutation.Store.RemovePodcast: says nothing about the episode table on success.
  What becomes of a removed podcast's episodes is decided by the ORM
  (app.py:14, app.py:19-20), whose behaviour is not part of this model. The
  method leaves the episode table alone. The model's removal always
  succeeds on a stored id. In the code, the ORM's handling of the
  podcast's episodes on delete may make the commit at app.py:122 fail
  while episodes still reference the podcast; that failure is not
  modelled.
- Mutation.Store.RemovePodcast: the snapshot's `episode_list` holds ORM `Episode`
  objects in the code (app.py:120). The model gives their field values, as
  `EpisodeType` records, taken before the deletion.
