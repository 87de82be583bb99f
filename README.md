# freemasons/models.py in Dafny

A model of the reconciliation core of the `freemasons` Django app of
elyase/longtails. The three tables are `TwitterUser`, `FreeMasonMember` and
`FreeMasonProject`. They live in one `Database` object: a map per table keyed
by auto-increment id, plus the id counters. The methods that rewrite the tables
are methods of that object.

- **`get_wallet`** (`Wallet`) splits the member's TwitterUser token on `':'`.
  It queries the ownership service with fields 1 and 2 and takes the first
  owner. A non-200 answer gives an empty wallet.
- **`handle_twitter_user`** (`Snapshots.UpsertByTid`,
  `Database.UpsertUser`, `Database.HandleTwitterUser`) is a get-or-create by
  `twitter_identifier`. It writes name and username, and calls `save()` only
  when one of them differs. It then adds the row to the member's followers or
  following.
- **`FreeMasonMember.sync`** (`Snapshots.Walk`, `Models.SyncedMember`,
  `Database.SyncMember`) resolves the wallet and clears both
  association sets. It upserts `followers + following` in order, then stores
  the wallet and `last_sync_at`.
- **`FreeMasonProject.sync`** (`Rosters.Enroll`, `Database.Enlist`,
  `Database.SyncProject`) returns 500 on a non-200 listing. Otherwise it
  clears the project's members and walks the first 100 entries. For each
  entry it:
  - gets or creates the TwitterUser row by (`twitter_identifier`,
    `inspect_identifier`);
  - overwrites four columns of that row and saves it;
  - gets or creates the member of that row and adds it to the project.
- **`member_follower_summary`** (`Summary`) groups the project's members by
  username, counts each group and orders the groups by count, largest first.

Django's `get_or_create` is modelled with its three outcomes:

- no match creates a row at the next id;
- one match returns it;
- two or more raise `MultipleObjectsReturned`.

Nothing is rolled back when an exception escapes. Many-to-many `clear`/`add`
take effect at once, while instance fields take effect only at `save()`. The
outcome of a sync is `Returned(status)` or `Raised(error)`.

Each imperative method is tied to a ghost function that specifies it: a pass
(`AbsorbAt`, `EnrollAt`), a fold over a prefix (`Walk`, `Enroll`), or the
query `SummaryOf`. The promised properties are lemmas about those functions.

Where the member-listing path and the member-sync path use different lookup
keys, the model follows the code. The roster path looks rows up by the pair
of identifiers. The member sync looks them up by `twitter_identifier` alone,
and that column is not unique in the schema. So `MultipleObjectsReturned` is
reachable on both paths, and every contract states when it is raised.

The Twitter id list returned by `get_username_ids` is an input. `Rosters.EnrollAt`
raises `IndexError` when an entry has no id at its position. This follows the
code (`member_twitter_ids[i]`) rather than assuming the list is long enough.

The name `member_follower_summary` suggests a follower-overlap report; the
model follows what lines 147-152 compute instead. The query groups the
project's members by the username of each member's own `twitter` row and
counts the members in each group; no follower set is read. The second
`order_by` replaces the first, so the order among equal counts is left to the
database and is not the username order.

## Model

| member | source | states |
|---|---|---|
| Wallet.Split | freemasons/models.py:70 | `str.split(':')`: one more field than separators, no field contains one, and joining the fields gives the token back |
| Wallet.SplitJoin | freemasons/models.py:70 | splitting a join of separator-free fields gives exactly those fields back |
| Wallet.ParseToken | freemasons/models.py:70-72 | the token yields fields 1 and 2 exactly when it has at least two colons; otherwise `IndexError` |
| Wallet.ParseTokenFields | freemasons/models.py:70-72 | for a token built from three or more separator-free fields, the contract address and token id are fields 1 and 2 verbatim |
| Wallet.GetWallet | freemasons/models.py:64-82 | raises `AttributeError` without a token; raises `IndexError` on fewer than three fields or a 200 answer with no owners; otherwise the first owner on 200 and `""` on any other status |
| Wallet.WalletOfToken | freemasons/models.py:70-82 | for a well-formed token, the query uses fields 1 and 2; a non-200 answer gives `""` and a 200 answer the first owner |
| Records.LastWith | freemasons/models.py:94-116 | the last profile with id `x`: it carries `x` and no later profile does; `ProfilesApplied` and `SyncedMemberSpec` require the row to show its name and username |
| Snapshots.UpsertByTid | freemasons/models.py:91-97 | the get-or-create by `twitter_identifier` with the conditional write; specified by `UpsertSpec` |
| Snapshots.AbsorbAt | freemasons/models.py:115-116 | one iteration: the upsert, then the add to followers or following; specified by `WalkKeepsRow` and `WalkInvariant` |
| Snapshots.Walk | freemasons/models.py:115-116 | the loop over the first `i` profiles, stopping at the first raise; specified by `WalkKeepsRow`, `WalkInvariant`, `SnapshotReplaced` and `WalkStopped` |
| Snapshots.UpsertSpec | freemasons/models.py:91-97 | raises exactly when two or more rows carry the id; otherwise reuses the one row or creates one at the next id; only that row changes, and only its name and username; it is saved exactly when it was new or differed |
| Snapshots.WalkKeepsRow | freemasons/models.py:115-116 | the loop only grows the id counter, keeps ids below it, never writes the member's wallet, `twitter` or `last_sync_at`, and can only raise `MultipleObjectsReturned` |
| Snapshots.MemberSyncStuck | freemasons/models.py:91-92 | a lookup in the loop that matches two or more rows means some fetched id was already ambiguous before the sync |
| Snapshots.WalkInvariant | freemasons/models.py:107-116 | after any prefix the loop has either raised `MultipleObjectsReturned` on an id that was ambiguous before the sync, or kept the table relation with both sets exactly the rows of the ids seen so far |
| Snapshots.SnapshotReplaced | freemasons/models.py:107-116 | the loop raises exactly when a fetched id was ambiguous; otherwise followers (following) is exactly the set of rows whose id was fetched as a follower (following), and nothing of the old sets remains |
| Snapshots.WalkStopped | freemasons/models.py:115-116 | once the loop has raised, the longer loop has raised too |
| Models.SyncedMember | freemasons/models.py:104-121 | the member sync on values: wallet lookup, then the walk over the cleared member, then wallet and `last_sync_at`; specified by `SyncedMemberSpec` |
| Models.SyncedMemberSpec | freemasons/models.py:104-121 | the member sync raises exactly when the wallet lookup raises or a fetched id is ambiguous; on success every fetched profile has one row showing its last name and username, the sets are exactly the fetched rows, and the row carries the wallet and the sync time |
| Models.Database.UpsertUser | freemasons/models.py:91-97 | the table and counter after the call are those of `UpsertByTid`; members, projects and the member counter are unchanged |
| Models.Database.HandleTwitterUser | freemasons/models.py:90-102 | the upsert, then the row is added to followers or following by the flag; a raise changes nothing |
| Models.Database.AbsorbProfile | freemasons/models.py:115-116 | one iteration is one step of `Walk`; a raising step changes nothing |
| Models.Database.Refill | freemasons/models.py:115-116 | the loop's state is `Walk` of the prefix processed so far, stopping at the raising profile; only the member's row and the TwitterUser table change |
| Models.Database.ReplaceSnapshot | freemasons/models.py:107-116 | clears both sets, then the tables equal `Walk` over all profiles; on a raise they equal `Walk` of the prefix `stop`, and the walk over `stop + 1` profiles raises, so `stop` is the raising profile |
| Models.Database.SyncMember | freemasons/models.py:104-121 | returns 200 exactly when `SyncedMember` succeeds, with the tables equal to its result; a wallet raise changes nothing; a walk raise leaves the walk's state after the profiles before the raising one (`Walk` of `stop` succeeds with the tables, `Walk` of `stop + 1` raises) |
| Rosters.Head | freemasons/models.py:163 | `[:100]`: a prefix of at most 100 entries, the whole list when shorter |
| Rosters.Overwritten | freemasons/models.py:176-179 | the overwrite keeps both identifier columns as they were (set or not) and sets name, username, picture and token to the entry's values |
| Rosters.UpsertByKey | freemasons/models.py:171-180 | the get-or-create by the identifier pair, then the overwrite and save; specified by `UpsertByKeySpec` |
| Rosters.MemberFor | freemasons/models.py:182-184 | the get-or-create of the member of a row; specified by `MemberForSpec` |
| Rosters.EnrollAt | freemasons/models.py:171-186 | one pass: `IndexError` without an id, else upsert, member lookup and add; specified by `StepConflict` and `StepOutcome` |
| Rosters.Stalled | freemasons/models.py:171-184 | the state a raising pass leaves: the TwitterUser row written when the upsert succeeded, nothing else; used by `EnrollEntry`, `Enlist` and `SyncProject` |
| Rosters.Enroll | freemasons/models.py:170-186 | the loop over the first `i` entries, stopping at the first raise; specified by `RosterWalk`, `RosterCount`, `RosterShown`, `RosterSynced`, `TraceWalk` and `EnrollStopped` |
| Rosters.Fault | freemasons/models.py:165-184 | the first entry without a Twitter id or with an ambiguous key, judged on the tables before the loop; `RosterWalk` shows it is the loop's raise |
| Rosters.UpsertByKeySpec | freemasons/models.py:171-180 | raises exactly when two or more rows carry the pair; otherwise reuses the one row with the pair or inserts one at the next id; a row sharing only `twitter_identifier` is never picked; only that row changes |
| Rosters.MemberForSpec | freemasons/models.py:182-184 | raises exactly when two or more members point at the row; otherwise returns that member or inserts a bare one; existing members are never altered |
| Rosters.StepConflict | freemasons/models.py:171-184 | one pass raises exactly when its key is ambiguous in the tables as they were before the loop |
| Rosters.StepOutcome | freemasons/models.py:170-186 | a pass raises `IndexError` without an id and `MultipleObjectsReturned` on an ambiguous key; otherwise it keeps the loop invariant |
| Rosters.RosterWalk | freemasons/models.py:169-186 | the loop raises exactly the first fault of the entries; otherwise each listed key has one row and one member, the project's members are exactly those members, and unlisted rows and all old members are untouched |
| Rosters.RosterCount | freemasons/models.py:169-186 | a loop that does not raise adds at most one member per entry, and exactly one per entry when the keys are distinct |
| Rosters.RosterShown | freemasons/models.py:176-180 | after a loop that does not raise, each listed row holds the columns of the last entry with its key |
| Rosters.RosterSynced | freemasons/models.py:163-186 | the combined result over the first 100 entries, including the bound of 100 members |
| Rosters.TraceWalk | freemasons/models.py:170-186 | a run of successful passes from the start state is the loop `Enroll` |
| Rosters.EnrollStopped | freemasons/models.py:170-186 | once a pass raises, later entries are not looked at |
| Models.EnrollConsistent | freemasons/models.py:171-186 | a pass keeps every id below its counter and every reference pointing at an existing row, after the upsert alone and after the add |
| Models.Database.UpsertListed | freemasons/models.py:171-180 | the table and counter after the call are those of `UpsertByKey`; a raise changes nothing |
| Models.Database.MemberOf | freemasons/models.py:182-184 | the member table and counter after the call are those of `MemberFor` |
| Models.Database.EnrollEntry | freemasons/models.py:171-186 | one pass is `EnrollAt`; a raising pass leaves the saved TwitterUser row (`Stalled`) and no new member; only the project's member set changes among projects |
| Models.Database.Enlist | freemasons/models.py:170-186 | the loop ends in `Enroll` over all entries, or stops at the first raising pass with the state that pass left |
| Rosters.LastListed | freemasons/models.py:170-179 | among the first `i` entries, the one with key `k` that comes last: it carries `k` and no later entry does; `RosterShown` proves the row holds its columns |
| Models.Database.SyncProject | freemasons/models.py:155-192 | non-200 returns 500 and changes nothing; otherwise members are cleared and the walk runs over the first 100 entries; it returns 200 exactly when the walk does not raise, then with the walk's tables and `last_sync_at = now`; a raise keeps `last_sync_at`, raises the walk's error at pass `stop` (`Enroll` of `stop` succeeds, of `stop + 1` fails with that error) and leaves the state that pass left (`Stalled`) |
| Summary.NamesOf | freemasons/models.py:147-148 | `self.members.values('twitter__username')`: one username per project member |
| Summary.NamesOfCount | freemasons/models.py:147-150 | the number of times a username occurs is the number of project members carrying it |
| Summary.SummaryOf | freemasons/models.py:148-152 | the grouped, count-ordered query over a multiset of usernames; specified by `SummaryOfSpec` and `SummaryDetermined` |
| Summary.SummaryOfSpec | freemasons/models.py:148-152 | the grouped query has each username exactly once, with its number of occurrences, counts non-increasing, and the counts add up to the number of usernames |
| Summary.SummaryDetermined | freemasons/models.py:151 | any two lists meeting that description hold the same rows: only the order among equal counts is open |
| Summary.ProjectSummary | freemasons/models.py:141-153 | the summary of a project's member set; specified by `ProjectSummarySpec` |
| Summary.ProjectSummarySpec | freemasons/models.py:141-153 | each project member's username appears once with the number of project members carrying it; counts do not increase and sum to the size of `members` |
| Models.Database.MemberFollowerSummary | freemasons/models.py:141-153 | the same for the store's project `pid` |

## Left out

- HTTP plumbing is not modelled: `requests.get`, the `URLS` table, the API key header and JSON decoding. Answers are parameters: `chain(contract, tokenId)` for the ownership query and a `ListingResponse` for the member listing. A transport failure, a JSON error or a missing key (`KeyError`) is not modelled.
- `TwitterClient` and its `get_followers`, `get_following` and `get_username_ids` calls are not modelled. Their results are input sequences.
- `needs_sync` lives in a module that is not part of this model. So the `save()` hook of `FreeMasonProject` (lines 127-130) is not modelled, nor the re-entry through `self.save()` at line 189. The member hook is commented out in the source.
- `created_at`/`updated_at` (`auto_now`, `auto_now_add`), `max_length`, CASCADE, `ordering` and database transactions are not modelled.
- `django.utils.timezone.now()` is the `now` parameter. Time zones are not modelled.
- `member_follower_summary`'s literal output key `"username:"`, with its colon, is cosmetic and not modelled. Rows are `SummaryRow(username, overlapCount)`.
- Summary.SummaryOf: the database's order among usernames with equal counts is unspecified. The model picks one, so the contract promises only what `SummaryDetermined` shows.
- Models.Database.SyncProject: after a raise, the contract gives the state through `Stalled` at the raising pass and the walk prefix before it. It does not restate the table relation for that state, which follows from `RosterWalk` at the prefix.
- Concurrency is not modelled: the code has none, and two syncs racing on the same rows are out of scope.
