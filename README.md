# Co-Star server core in Dafny

A model of the route logic in `server/index.js` of the Co-Star backend, an Express
server that keeps actor ("thespian") documents and game high scores in MongoDB and
scrapes a video host for a playable media file. Three parts of it carry a rule, and
those are modelled:

- **Thespians** (`thespians.dfy`). `GET /thespians?name=` shapes the lookup result by
  its size. It answers not-found for no match, the single document for one match, and
  the array for several. `DELETE /thespians` removes every document whose
  `profile_path` is null or missing. The collection is a `Store` class with a `seq`
  field.
- **Leaderboard** (`leaderboard.dfy`). `GET /leaderboard` returns the ten best scored
  documents, highest first, or not-found. `POST /leaderboard` saves a document, reads
  the ten best again, and takes the last one's score as `tenth`. It then deletes every
  document scoring strictly below `tenth`. The module `Ranking` holds the query and
  prune as functions over the collection, plus the lemmas about them. The module
  `Leaderboard` holds the `Store` class, whose `Insert`, `Top10`, `Prune`, `Post` and
  `Query` methods update or read the stored sequence.
- **Movie link** (`movie_link.dfy`, over `js_string.dfy`). `GET /movielink/<title>`
  cuts the title out of the path. It then slices between text markers in two fetched
  pages, and picks the 720p source, else the 360p one, else the 240p one.
  `js_string.dfy` gives `indexOf`, `lastIndexOf`, `includes`, `substring` and `slice`
  their ECMAScript semantics:
  - a search answers -1 when the pattern is absent;
  - `substring` clamps its positions to the string and swaps them when reversed;
  - `slice` counts a negative start from the end.

  The slicing depends on these edge cases.

`wrappers.dfy` holds an `Option` type. `seqs.dfy` holds an order-preserving `Filter`,
which models a MongoDB query's selection in store order.

Collection semantics taken from MongoDB:
- A document without a `score` field is not selected by `{score: {$exists: true}}`.
- `{$lt: tenth}` never matches such a document, so a prune keeps it.
- `{profile_path: null}` matches both null and missing values.
- MongoDB leaves the order of equal scores unspecified. The model ranks them with a
  stable insertion sort, so tied documents keep their store order. `tenth` and the
  prune are stated on scores: `Ranking.TenthDependsOnlyOnScores` shows that `tenth`
  does not depend on how ties are ordered. Which of several tied documents the query
  returns does depend on it (see "## Left out").

Where the code and its own comments differ, the model follows the code. The comment
at `server/index.js:159-161` says that a prune keeps only the scores shown on the
leaderboard. The code deletes only scores strictly below `tenth`. So documents tied
with `tenth`, and documents with no score, survive a prune, and the store can hold
more than ten documents afterwards.

## Model

| member | source | states |
|---|---|---|
| Thespians.Shape | server/index.js:50-61 | The reply is not-found exactly when the result is empty, a single document exactly when there is one match, and the array exactly when there are several. |
| Thespians.ShapeKeepsResult | server/index.js:50-61 | Shaping loses no document and adds none: the documents a reply carries are exactly the query result, in order. |
| Thespians.Named | server/index.js:45 | `find({name: name})` selects exactly the stored documents with that name, in store order. |
| Thespians.Store.Find | server/index.js:43-65 | The reply carries exactly the documents named `name`, in store order. It is not-found exactly when no stored document has that name. A single reply is the only match and is stored once. A several reply has more than one document, all stored and all with that name. |
| Thespians.Store.RemoveWithoutProfile | server/index.js:109-114 | The store afterwards is the documents with a profile picture, in their old order. Every remaining document has a picture. The number of copies of each document with a picture is unchanged. The count reported is the number of documents without a picture. |
| Thespians.ProfileSplit | server/index.js:110-112 | Every document either has a profile picture or lacks one, so the documents kept plus the documents removed are, as a multiset, exactly the store, and their counts add up to its size. |
| Ranking.SortByScore | server/index.js:138 | `sort({score: -1})` as a stable insertion sort. It keeps the length, and `SortByScoreSorted`, `SortByScorePermutes` and `SortByScoreKeys` below give its order and contents. |
| Ranking.TopTen | server/index.js:138 | `find({score: {$exists: true}}).sort({score: -1}).limit(10)`. It returns min(10, scored documents) documents; `TopTenRanked` and `TopTenIsBest` give the rest. |
| Ranking.Tenth | server/index.js:181 | `result[result.length - 1].score`, defined only when the query returned a document. `RankedScores` shows it is the score at position min(10, n) - 1 of the store's scores in descending order. |
| Ranking.Pruned | server/index.js:182 | `find({score: {$lt: tenth}}).remove()`: the store less its documents scoring strictly below `tenth`. `PrunedScores` and `PruneSpec` state what is left. |
| Ranking.InsertByScoreSorted | server/index.js:138 | Inserting into a highest-first ranking keeps it highest first. |
| Ranking.InsertByScorePermutes | server/index.js:138 | Insertion adds exactly the one document to the ranking's documents. |
| Ranking.SortByScoreSorted | server/index.js:138 | `sort({score: -1})` yields documents ordered highest score first. |
| Ranking.SortByScorePermutes | server/index.js:138 | The sort is a permutation of the documents it is given. |
| Ranking.SortByScoreKeys | server/index.js:138 | The sorted documents carry the same multiset of scores. |
| Ranking.TopTenRanked | server/index.js:138 | The leaderboard query returns min(10, number of scored documents) documents. They are all scored, they are highest first, and each is a document of the store. |
| Ranking.TopTenIsBest | server/index.js:138 | Every scored document the query leaves out scores no higher than the last one it returns. |
| Ranking.RankedScores | server/index.js:174-181 | The ranked scores are a descending list with exactly the store's scores, and `tenth` is its entry at position min(10, n) - 1. |
| Ranking.TenthDependsOnlyOnScores | server/index.js:174-181 | Two stores with the same multiset of scores have the same `tenth`, whatever documents carry the scores and however ties are ordered. |
| Ranking.PruneKeepsTopTen | server/index.js:174-182 | The prune never deletes one of the ten best documents the query returned. |
| Ranking.TenthIsLowestWhenFew | server/index.js:174-181 | With at most ten scored documents, `tenth` is the lowest score in the store. |
| Ranking.PruneKeepsAllWhenFew | server/index.js:174-182 | With at most ten scored documents, the prune deletes nothing. |
| Ranking.PrunedScores | server/index.js:182 | The scores left after `remove({score: {$lt: tenth}})` are exactly the store's scores that are at least `tenth`, in store order. |
| Ranking.PruneKeepsTenth | server/index.js:174-182 | After a prune the store still has a scored document, and recomputing `tenth` gives the same score. |
| Ranking.PruneIsIdempotent | server/index.js:174-182 | A second prune right after the first deletes nothing. |
| Ranking.PruneKeepsTiesPastTen | server/index.js:159-182 | When the eleventh score in ranking order ties with the tenth, more than ten scored documents survive the prune. So the store does not always shrink to the leaderboard, as the comment at lines 159-161 suggests. |
| Ranking.PruneSpec | server/index.js:174-182 | Everything a prune guarantees about the store it started from, in one place. Every remaining scored document scores at least `tenth`. Survivors keep all their copies. The ten best are kept, and with at most ten scored documents nothing is deleted. The `tenth` afterwards is the same, and pruning again is a no-op. |
| Leaderboard.Store.Insert | server/index.js:167-168 | `save` appends the new document and changes nothing else. |
| Leaderboard.Store.Top10 | server/index.js:138-139 | The query result is the ten best by the specification function. Its length is min(10, scored documents). It is highest first, all scored, and drawn from the store. Nothing left out scores above its last entry. |
| Leaderboard.Store.Query | server/index.js:137-153 | The answer is not-found exactly when no stored document has a score. Otherwise it is the ten best, at most ten and at least one, all scored, highest first and drawn from the store. |
| Leaderboard.Store.Prune | server/index.js:174-182 | `tenth` is the score of the last of the ten best. The store becomes the old store less the documents scoring strictly below `tenth`. Every remaining scored document scores at least `tenth`, and survivors keep all their copies. The ten best are all kept. With at most ten scored documents the store is unchanged. The store's `tenth` is unchanged, and a second prune would delete nothing. |
| Leaderboard.Store.Post | server/index.js:164-196 | Saving then pruning. The store is the old store plus the new document, pruned at the resulting `tenth`. The new document is kept exactly when it has no score or scores at least `tenth`. Every scored document left scores at least `tenth`, the ten best are kept, and the `tenth` of the result is unchanged. |
| JsString.IndexOf | server/index.js:262-263 | `indexOf` is -1 exactly when the pattern occurs nowhere. Otherwise it is a position where the pattern occurs, with no occurrence before it. |
| JsString.LastIndexOf | server/index.js:250-252 | `lastIndexOf` is -1 exactly when the pattern occurs nowhere. Otherwise it is a position where the pattern occurs, with no occurrence after it. |
| JsString.IndexOfChar | server/index.js:259 | For one character, `indexOf` is -1 exactly when the character is absent, and otherwise the position of its first occurrence. |
| JsString.LastIndexOfChar | server/index.js:250-252 | For one character, `lastIndexOf` is -1 exactly when the character is absent, and otherwise the position of its last occurrence. |
| JsString.Substring | server/index.js:264 | `substring` clamps both positions to the string and answers the text from the smaller position to the larger one. |
| JsString.SubstringClampsAbove | server/index.js:258 | An end at or past the string's length counts as the end of the string, so `substring(start, end)` there agrees with the one-argument `substring(start)`. |
| JsString.SubstringSymmetric | server/index.js:264 | `substring` gives the same text whichever order its two positions come in. |
| JsString.SubstringClampsNegative | server/index.js:258-259 | A negative position, such as a -1 from a failed search, counts as 0. |
| JsString.SubstringInRange | server/index.js:264 | On in-range positions given in order, `substring` is the plain slice. |
| JsString.SubstringFrom | server/index.js:258 | `substring(start)` is the whole string for start at most 0, the tail from `start` inside the string, and empty past its end. |
| JsString.Slice | server/index.js:250 | `slice(start)` on an in-range start is the tail from `start`, and empty past the end. |
| MovieLink.LastSegment | server/index.js:250 | `substring(lastIndexOf('/')).slice(1)`. The result is a suffix of the path; `LastSegmentHasNoSlash` and `LastSegmentAt` say which one. |
| MovieLink.CutQuery | server/index.js:251-252 | The cut before the last `?`, when the segment has one. The result is a prefix of the segment; `CutQueryAt` says which one. |
| MovieLink.MovieName | server/index.js:248-252 | The title is a prefix of the last segment. The three `MovieName` lemmas below characterise it. |
| MovieLink.LastSegmentHasNoSlash | server/index.js:250 | The text after the last `/` has no `/`. With no `/` at all, it is the path less its first character. |
| MovieLink.LastSegmentAt | server/index.js:250 | When the last `/` is at `k`, the segment is exactly the text after position `k`. |
| MovieLink.CutQueryPrefix | server/index.js:251-252 | Cutting at `?` keeps a prefix of the segment, and all of a segment with no `?`. |
| MovieLink.CutQueryAt | server/index.js:251-252 | When the segment's last `?` is at `q`, the cut keeps exactly the text before `q`. |
| MovieLink.MovieNameHasNoSlash | server/index.js:248-252 | The movie title never contains `/`. |
| MovieLink.MovieNameAfterLastSlash | server/index.js:248-252 | The title is a prefix of the text after the path's last `/`. When that text has no `?`, the title is all of it. |
| MovieLink.MovieNameBeforeLastQuestionMark | server/index.js:248-252 | When the path's last `?` comes after its last `/`, the title is exactly the text between them. |
| MovieLink.DoitArgument | server/index.js:258-259 | The argument of the last `doit(` call. It never contains `)`. |
| MovieLink.DoitArgumentSpec | server/index.js:258-259 | The argument starts six characters into the last `doit(`, or at position 5 when the page has none. It runs up to the first `)` after that start. With no `)` there, or a start past the page's end, it is empty. |
| MovieLink.EmbedUrl | server/index.js:262-264 | The player address cut out of the decoded markup. It is never longer than the markup. |
| MovieLink.EmbedUrlSpec | server/index.js:262-264 | The start is just past the first `src="`, or position 4 when there is none. With the end marker `" webkitAllow` after the start, the address is the text between them. With the end marker before the start, it is the swapped range. With no end marker, it is the markup up to the start. |
| MovieLink.SourcesLiteral | server/index.js:271-272 | The array literal cut out of the player page. It is empty, or it ends with its only `]`. |
| MovieLink.SourcesLiteralSpec | server/index.js:271-272 | The literal starts nine characters after the first `sources: [`, at its `[`, or at position 8 when there is none. It runs through the first `]` after that start. With no `]` there, or a start past the page's end, it is empty. With the marker present and a `]` after it, the literal starts with `[` and ends with `]`. |
| MovieLink.Find | server/index.js:276-280 | `find` is undefined exactly when no source has the label. Otherwise it is the first source with that label. |
| MovieLink.PickSource | server/index.js:276-282 | The fallback from 720p to 360p to 240p. A picked source is one of the given sources and carries one of the three labels; `PickSourceSpec` gives the order of preference. |
| MovieLink.PickSourceSpec | server/index.js:276-282 | The first 720p source wins. A 360p source is picked only when there is no 720p source, and a 240p source only when there is neither. Nothing is picked exactly when none of the three labels is present. |
| MovieLink.Respond | server/index.js:246-299 | The whole route, composed from the cuts above and the fetch, decoder and evaluation parameters. `RespondSpec` states when it answers a media file and which one. |
| MovieLink.RespondSpec | server/index.js:246-299 | The route answers with a media file exactly when both fetches succeed, the player page is not `File was deleted`, and a preferred label is present. The file is then that of the first 720p source. Without a 720p source it is the first 360p source's file, and without either it is the first 240p source's file. In every other case it answers `error`. |

## Left out

- Express setup, static files and the listener (lines 20-31 and 304-307) are not modelled, because they are framework wiring.
- `GET /thespians/random` (72-84) is not modelled, because it picks a random document and holds no rule of its own.
- `POST /thespians` (92-104) and `GET /allthespians` (120-124) are not modelled, because they are plain save and find-all calls.
- `GET /:movie` (204-232) and `GET /tmdb/token` (240-242) are not modelled, because they only relay other services.
- The `request` calls (255-256, 265-266) are not modelled as network I/O. A fetch is the parameter `fetch`, which answers `Failed` for an error or a status other than 200.
- `decodeURI` (248) is not modelled. The request path is taken as already decoded.
- `getPlUrl` and `decodeDoIt` are not part of this model. Their results enter `MovieLink.Respond` as the parameters `playlistUrl` and `decode`.
- `eval` of the array literal (274) is not modelled. Its result is the parameter `evaluate`, which yields a sequence of (label, file) pairs.
- A literal `eval` rejects is not modelled as a failure. The literal is empty when no `]` follows its start, which is position 8 when the page has no `sources: [`. With no `sources: [` but a `]` after position 8, the literal is arbitrary page text, which `eval` at line 274 runs as code or throws on (a lone `]`, say). With an empty literal, `eval('')` yields `undefined`, and `sourceArray.find` throws at line 276. `MovieLink.Respond` hands either text to `evaluate`.
- A missing `res.end('error')` return (282) is not modelled. When no preferred label exists, the source answers `error` and then reads `.file` of `undefined` at line 287, which throws. `MovieLink.Respond` answers `Error` and stops there.
- Logging, the shared error handlers, and database errors are not modelled. Database calls always succeed in the model.
- `Leaderboard.Store.Prune` requires a scored document in the store, because the source crashes at line 181 when the query returns nothing. The crash itself is not modelled as an outcome.
- `Leaderboard.Store.Post` requires the same of the store after the save, for the same reason.
- Leaderboard.Store.Post: each post runs as one step. In the source, the save, the query and the remove (lines 168, 174 and 182) are separate asynchronous database calls. Calls from concurrent requests can interleave, and that is not modelled. A stale `tenth` can then delete a document saved in between, even with at most ten scored documents.
- Leaderboard.Store.Post returns `tenth`, which the source never sends. The route's reply, the saved document `post` (line 188), is not modelled. The source sends that document even when the prune has just deleted it for scoring below `tenth`. The deletion itself is stated by `h in records <==> Survives(h, tenth)`.
- Thespians.Named and Thespians.Store.Find return matches in store order. The lookup at line 45 has no `sort`, and MongoDB returns matches in natural order, which it does not promise to be insertion order. So the `Several` array's order is unspecified in the source.
- Leaderboard.Store.Query and Leaderboard.Store.Top10 return tied documents in store order, because the model's sort is stable. The source's sort may return tied documents in any order, and when ties straddle tenth place it may return any of them.
- Scores are mathematical integers. JavaScript numbers, non-integral scores, a `score` that is explicitly null, and Mongoose's type casting are not modelled.
- A lookup without a `name` query parameter is not modelled. Every lookup in the model has a name.
- UTF-16 positions are not modelled. A JavaScript string is a sequence of UTF-16 code units, but a Dafny `char` is a Unicode scalar value, and one `char` is one position here. The two differ for characters outside the Basic Multilingual Plane, which take two positions in JavaScript. So the fixed offsets (`+6`, `+5`, `+9`, `.slice(1)`) can split a surrogate pair in the source but never in the model, and a lone surrogate cannot be represented. No Unicode normalisation is modelled either.
- The response status codes and bodies of the not-found handlers are not modelled. Each is a single constructor (`NotInDb`, `NoHighScoresYet`).
- The document ids and the remaining actor fields beyond name, id and profile path are not modelled, because no rule reads them.
