# Party poll: vote store, vote reader, tag ranking and poem prompt

A model, in Dafny, of the data path of the birthday party poll app
(`party_aap.py`). Guests pick properties and wishes for the celebrant, add an
optional insider note and submit. Each submission becomes one vote document.
The document goes to the remote "votes" collection when the app has a connection
to the document store. Without a connection it goes to a list kept in the
session. The host view reads every vote back and flattens the properties, the
wishes and the non-empty insider notes. It ranks the five most frequent
properties and wishes, then builds the text prompt for the poem generator.

Modules:

- `Votes` (`votes.dfy`) holds the vote document. A field may be missing from a
  document read back from the remote collection. The module also holds the
  flattening the reader performs (`d.get("properties", [])`, the truthiness test
  on `insider`) and its algebra.
- `Store` (`store.dfy`) holds the class `VoteStore`. Its fields are the
  connection flag, the remote collection and the session list. `SaveVote` and
  `LoadAll` change or read that state step by step, as the source does.
  `Submit` is the guest form's handler with its empty-selection check.
- `Ranking` (`ranking.dfy`) holds `Counter(tags).most_common(n)`. The counter
  keeps its keys in first-seen order. `most_common` is a stable sort by
  descending count followed by taking `n`, so equal counts keep first-seen
  order. It is proved against an independent description: the unique list of
  `min(n, #distinct)` tags in which every tag precedes each later one and each
  left-out tag. It also relates the counts it ranks to the votes they come from.
- `Prompt` (`prompt.dfy`) holds `", ".join`, the decimal text of the age, the
  insider segment and the prompt template.

Behaviours of the source that the model keeps as written:

- A remote add that raises makes `save_vote_to_db` return false. The guest then
  sees the "only saved locally" notice, yet the vote was stored nowhere.
  `Store.VoteStore.Submit` states this (`remote` and `localVotes` unchanged,
  `LocalOnlyNotice`).
- A remote stream that raises part-way is swallowed. The reader returns what it
  had flattened until then (`Store.StreamPrefix`).
- The template follows `{insider_text}` with its own ". ". A non-empty insider
  segment ends in "." already, so the prompt reads "… Details: x, y.. Reimschema
  AABB.". An empty segment gives "… . . Reimschema AABB.". `Prompt.PromptParts`
  keeps these literal pieces.
- Only the keys of `most_common` are used; the counts are dropped.

External inputs are parameters:

- the outcome of connecting to the store is the constant `connected`;
- whether the remote add raises is `addFails`;
- where an added remote document falls in the stream's order is `pos`. The
  stream has no `order_by`, so the store orders documents by the random id it
  generates, and a new vote can land anywhere;
- after how many documents the remote stream raises is `failAfter`;
- the client clock reading is `clock`;
- the positions `random.sample` draws are `picks`.

## Model

| member | source | states |
|---|---|---|
| `Store.VoteStore.constructor` | party_aap.py:95-96 | the session starts without a local vote list (None, which reads as the empty list) |
| `Store.VoteStore.SaveVote` | party_aap.py:77-99 | returns true exactly when connected and the add succeeded. Only then is the record inserted into the remote collection, at the position `pos` its id gives it, with every other document kept in order. Offline it is appended to the session list, which is created empty if absent. The server timestamp is used when connected, the clock reading otherwise. All four fields are stored as given. |
| `Store.VoteStore.LoadAll` | party_aap.py:101-131 | the raw list is the remote stream, cut where it raises, or else the session list (empty if absent); the three results are exactly the in-order flattenings of that list |
| `Store.LocalOr` | party_aap.py:123-124 | definition: a session without a local list reads as no votes; used by the contracts of SaveVote and LoadAll |
| `Store.Selected` | party_aap.py:227 | definition: a submission selects something when it has a property or a wish; used by the contract of Submit |
| `Store.StreamPrefix` | party_aap.py:110-120 | what survives a failing stream is a prefix of the collection: all of it without a failure, otherwise min(k, size) documents |
| `Store.VoteStore.Submit` | party_aap.py:226-236 | an empty selection is rejected and leaves both stores unchanged. Otherwise the vote is saved as by SaveVote, and the cloud notice shows exactly when the save reported true. |
| `Votes.NewVote` | party_aap.py:79-85 | the saved record carries the name and timestamp given, and reads back as exactly the given properties, the given wishes, and the note unless it is empty |
| `Votes.PropertiesOf` | party_aap.py:115 | definition: `d.get("properties", [])`: the stored list, or the empty list when the key is missing |
| `Votes.WishesOf` | party_aap.py:116 | definition: `d.get("wishes", [])`: the stored list, or the empty list when the key is missing |
| `Votes.InsiderOf` | party_aap.py:117-118 | a record adds at most one note, and adds one exactly when its note is present and non-empty; that note is the record's own |
| `Votes.FlatMap` | party_aap.py:112-118 | the flattened list holds everything each record contributes, and nothing that some record did not contribute |
| `Votes.AllProperties` | party_aap.py:115 | `all_props` holds exactly the properties some vote carries |
| `Votes.AllWishes` | party_aap.py:116 | `all_wishes` holds exactly the wishes some vote carries |
| `Votes.Insiders` | party_aap.py:117-118 | `all_insider` holds exactly the notes some vote contributes |
| `Votes.FlatMapAppend` | party_aap.py:112-118 | flattening a concatenation of record lists is the concatenation of their flattenings |
| `Votes.FlatMapAt` | party_aap.py:112-118 | each record's contribution sits contiguously, in record order, between those of earlier and later records |
| `Votes.PartialReadIsPrefix` | party_aap.py:110-120 | a read stopped after k records yields a prefix of the full read's result |
| `Votes.InsidersSpec` | party_aap.py:117-118 | every collected note is non-empty and is some record's note; every record's non-empty note is collected; at most one note per record |
| `Votes.SavedVoteIsRead` | party_aap.py:96-98 | after a vote is appended to the session list, reading back adds exactly its properties and wishes, and its note if non-empty, after everything read before |
| `Votes.InsertedVoteIsRead` | party_aap.py:90 | after a vote lands at any position of the remote collection, reading back yields exactly its tags between those of the documents before and after it |
| `Ranking.FlatMapCount` | party_aap.py:254 | the count of a tag in the flattened list equals the sum of its counts over the individual votes |
| `Ranking.InsertedVoteCounts` | party_aap.py:90 | wherever a new vote lands in the read order, each tag's count in the flattened votes grows by exactly its count in that vote |
| `Ranking.FirstIndex` | party_aap.py:254 | the position of a tag's first occurrence: the tag is there and not before it |
| `Ranking.FirstIndexSnoc` | party_aap.py:254 | appending a tag does not move the first occurrence of a tag already present |
| `Ranking.FirstIndexSnocNew` | party_aap.py:254 | a tag seen for the first time first occurs at the appended position |
| `Ranking.Add` | party_aap.py:254 | one counting step: the tag's count goes up by one, starting from one; no other count changes; the key list stays the same for a tag already counted and gains the tag at its end for a new one |
| `Ranking.AddTallies` | party_aap.py:254 | counting one more tag keeps the counter exact: correct counts, keys equal to the distinct tags, keys in first-seen order |
| `Ranking.Tally` | party_aap.py:254 | `Counter(tags)`: every key is a tag and every tag is a key, counts equal occurrences, keys are in first-seen order |
| `Ranking.Insert` | party_aap.py:255 | the stable insertion step keeps the multiset of keys, adding the inserted key once |
| `Ranking.SortByCount` | party_aap.py:255 | the sort is a permutation of the keys |
| `Ranking.InsertRanked` | party_aap.py:255 | inserting a key that comes after the ones already placed keeps the list ranked: higher count first, ties in first-seen order |
| `Ranking.SortRanked` | party_aap.py:255 | sorting first-seen-ordered keys yields a ranked list |
| `Ranking.SortedKeysSpec` | party_aap.py:254-255 | the sorted keys are exactly the distinct tags, each once, in ranking order |
| `Ranking.TakeRanked` | party_aap.py:255 | taking a prefix of a ranked list keeps it ranked, and every dropped tag ranks after every kept one |
| `Ranking.MostCommon` | party_aap.py:254-255 | `[k for k, v in c.most_common(n)]`: min(n, #keys) keys of the counter; the ranking order is given by MostCommonSpec |
| `Ranking.MostCommonSpec` | party_aap.py:254-255 | `most_common(n)` has min(n, #distinct) entries, all distinct tags. They are ranked by count with ties in first-seen order, and every omitted tag ranks after each listed one. |
| `Ranking.TopNUnique` | party_aap.py:254-255 | any list meeting that description is exactly `most_common(n)`, so the description determines the result |
| `Ranking.RankedSameTagsEqual` | party_aap.py:255 | two ranked lists holding the same tags are equal |
| `Ranking.TopTags` | party_aap.py:253-261 | the guarded top list: at most five tags, each one voted; the order is given by TopTagsSpec |
| `Ranking.TopTagsSpec` | party_aap.py:253-261 | the top list is empty exactly when no tag was voted. It holds min(5, #distinct) distinct voted tags in ranking order, and no omitted tag has a higher count than the last listed one. |
| `Ranking.MostCommonExample` | party_aap.py:254-255 | for the votes a, b, a, c, b, a the two most common are a then b |
| `Prompt.Join` | party_aap.py:276 | `sep.join(xs)`: empty for no elements, otherwise starts with the first element and ends with the last |
| `Prompt.JoinContains` | party_aap.py:276 | every element appears verbatim in the joined string |
| `Prompt.JoinSnoc` | party_aap.py:276 | joining one more element appends the separator and that element |
| `Prompt.ConcatContains` | party_aap.py:278 | every piece of the template appears verbatim in the prompt |
| `Prompt.ConcatEndsWithLast` | party_aap.py:278 | the prompt ends with the template's last piece |
| `Prompt.NatToString` | party_aap.py:278 | the age's text is non-empty decimal digits without a leading zero |
| `Prompt.DecimalRoundTrip` | party_aap.py:278 | the age's text reads back as the age |
| `Prompt.Sample` | party_aap.py:275 | the sample has one note per drawn position, each a note that was read |
| `Prompt.SampleSubBag` | party_aap.py:275 | the sample is drawn without replacement: no note occurs in it more often than among the notes read |
| `Prompt.InsiderText` | party_aap.py:272-276 | the insider segment is empty exactly when there are no notes; otherwise it starts with "Details: " and ends with a full stop |
| `Prompt.InsiderTextSpec` | party_aap.py:272-276 | the insider segment contains every sampled note, and the sample repeats no note more often than the notes hold it |
| `Prompt.PromptParts` | party_aap.py:278 | definition: the literal pieces and the slots of the prompt template, in order; specified by Compose |
| `Prompt.Compose` | party_aap.py:278 | the prompt starts with "Gedicht für " and ends with ". Reimschema AABB.". It contains the name, the age, both joined top lists and the insider segment. |
| `Prompt.HostPrompt` | party_aap.py:250-278 | definition: the template over the votes' top properties, top wishes and insider segment; specified by HostPromptMentions |
| `Prompt.HostPromptMentions` | party_aap.py:250-278 | the host's prompt names the celebrant, the age, every top property, every top wish and every sampled insider note |

## Left out

- Connecting to the store (`get_db`, lines 48-75) is left out. That covers credentials from the `textkey` secret, given as a mapping or as a JSON string, app initialisation and the resource cache. Only its outcome, the constant `connected`, is modelled.
- The remote collection is an abstract sequence of documents in stream order. Document ids are not modelled; a new document's place in that order is the parameter `pos`. Which documents survive a mid-stream failure and how `most_common` breaks ties by first occurrence depend on it. The counts do not (`Ranking.InsertedVoteCounts`). Concurrent writers are not modelled.
- `Store.VoteStore.SaveVote`: an add that raises is taken to have written nothing. A remote write that lands and then raises is not modelled.
- `Store.VoteStore.LoadAll`: a field whose value has the wrong type is not modelled. One case is a `properties` value that is null, where `extend` raises, which ends a remote read and escapes a local one. A field is either a well-typed value or absent.
- The timestamp values (`firestore.SERVER_TIMESTAMP`, `time.time()`) are opaque: a sentinel and an integer clock reading.
- The randomness of `random.sample` is not modelled. The sample is given as distinct positions, min(3, #notes) of them.
- The bar charts, the widget layout, `time.sleep`, the rerun and the debug table are left out, because they are UI.
- Loading the option lists from CSV (lines 135-146) is left out, because it is file I/O and the lists do not affect the modelled data path.
- The password gate (lines 148-161) is left out because it is UI gating.
- The call to the language model (lines 163-170 and the host view's key handling) is left out because it is a network call.
- The age widget's 1..120 range is not modelled: any natural number is accepted.
- `Prompt.Compose` fixes the prompt's start, end and contents but not its exact characters. The exact string is the definition `Prompt.PromptParts` itself.
- `Prompt.InsiderText` fixes the segment's "Details: " opening, its final full stop and its emptiness for no notes, but not that the middle is exactly the comma-joined sample. That is its definition.
