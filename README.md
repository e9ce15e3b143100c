# Capacity-bounded subreddit following

A Dafny model of the `follow` view of the `takehome` Django app
(`app/takehome/views.py`). The app keeps one global table of followed
subreddits. A POST to `follow` with a valid `name` saves a new row. If the
table already holds exactly five rows, `evict_oldest_subreddit` first deletes
the row that `Subreddit.objects.latest('date_followed')` returns.

The model has two modules:

- `Subreddits` (`records.dfy`) holds the values and rules. A row is a
  `Subreddit(name, stamp)` record, and the table is a `seq` of rows in save
  order. The functions say which row `latest` selects (`LatestIndex`,
  `Latest`), what deleting it leaves (`Evicted`), and what a whole valid
  follow leaves (`Admitted`). The lemmas state what these rules mean.
- `Views` (`views.dfy`) holds the view. `SubredditTable` is a class whose
  field `rows` is the table and whose field `clock` supplies stamps. Its
  methods `EvictOldestSubreddit`, `Save` and `Follow` update those fields in
  place. The `ensures` of `EvictOldestSubreddit` and `Follow` tie the new
  state to the functions above; `Save` states its new state directly.

In the model, the form is valid when the field's checks report no error
(`NameErrors`, `ValidName`): the name is non-empty and has at most 180
characters. The form has one field, `name`
(`app/takehome/forms.py:13`). That field is a required
`CharField(max_length=180)` (`app/takehome/models.py:7`).

Points where the code says something other than its comments:

- **Eviction removes the newest row, not the oldest.** `latest(field)`
  returns the row with the largest value of `field`. The doc-comments at
  `views.py:13` and `views.py:18-19` say the oldest row is removed. The model
  follows the code. `EvictionKeepsOldest` and `FullTableScenario` prove that
  the oldest row survives.
- **`date_followed` is not declared** in `models.py:3-7`, which only has
  `name`. The model assumes the stamp is a counter that increases strictly
  and is handed out at save time (`clock`). The invariant
  `SubredditTable.Valid` records this assumption.
- **Two spellings of the model class.** `models.py:3` declares `SubReddit`,
  while `views.py:7` and `forms.py:5` import `Subreddit`. The model treats
  them as one entity.
- **Names may repeat.** Neither the view nor the column rejects a name that
  is already followed. `RepeatedNameAdmitted` shows that such a name is
  saved again.
- **The capacity test is `== 5`, not `>= 5`.** A table that already holds
  more than five rows grows by one (`OverfullTableGrows`). Because of this,
  the bound of five is preserved only when it already held before the call.

## Model

| member | source | states |
|---|---|---|
| `Subreddits.ValidNameIff` | app/takehome/models.py:7 | `ValidName`, defined as "the field's checks report no error" (the required check, then `max_length=180`), holds exactly for names of 1 to 180 characters; the required error is reported exactly for the empty name |
| `Subreddits.LatestIndex` | app/takehome/views.py:14 | for a non-empty table, the selected position is in range and its stamp is at least every row's stamp (`latest` picks a maximal `date_followed`) |
| `Subreddits.Latest` | app/takehome/views.py:14 | the row `latest` returns is in the table and no row has a larger stamp |
| `Subreddits.RemoveAt` | app/takehome/views.py:15 | deleting one row removes exactly that row: one fewer row, the rows before and after keep their order, and the multiset loses exactly that row |
| `Subreddits.Evicted` | app/takehome/views.py:12-15 | after eviction the table has one row fewer, and exactly the `latest` row is missing from it |
| `Subreddits.Admitted` | app/takehome/views.py:35-40 | after a valid follow, the new row is last, so eviction never removes it. At exactly 5 rows, one old row (the `latest` one) is swapped for the new row and the count stays 5. Otherwise the old rows stay unchanged as a prefix and the count grows by 1. A count of at most 5 stays at most 5 |
| `Subreddits.LatestIsLast` | app/takehome/views.py:14-15 | when stamps increase in save order, `latest` selects the last row saved and eviction drops exactly that row |
| `Subreddits.EvictionKeepsOldest` | app/takehome/views.py:12-15 | with two or more rows, the evicted row is strictly newer than the oldest row, and the oldest row survives. This contradicts the "evicts the oldest" doc-comment |
| `Subreddits.AdmittedIncreasing` | app/takehome/views.py:35-40 | a valid follow with a stamp newer than every existing row keeps stamps strictly increasing in save order |
| `Subreddits.FullFollowReplacesNewest` | app/takehome/views.py:35-40 | at 5 rows, a valid follow keeps the four oldest rows in place and replaces the most recent one with the new row |
| `Subreddits.FullTableScenario` | app/takehome/views.py:17-40 | follows A..E at stamps 1..5, then F, leave A, B, C, D, F: the newest row E is evicted, not the oldest row A |
| `Subreddits.RepeatedNameAdmitted` | app/takehome/views.py:32-40 | with fewer than 5 rows, following a name that is already in the table adds a second row with that name and keeps the first |
| `Subreddits.OverfullTableGrows` | app/takehome/views.py:35-40 | eviction happens only at exactly 5 rows: a table with more than 5 rows keeps all of them and grows by one |
| `Views.SubredditTable.constructor` | app/takehome/models.py:3-7 | a new table is empty and satisfies the stamp invariant |
| `Views.SubredditTable.EvictOldestSubreddit` | app/takehome/views.py:12-15 | on a non-empty table, removes exactly the `latest` row, which is the last row saved. The clock is unchanged and the stamp invariant holds |
| `Views.SubredditTable.Save` | app/takehome/views.py:40 | appends one row with the submitted name and the next stamp, leaves every existing row as it was, and advances the clock |
| `Views.SubredditTable.Follow` | app/takehome/views.py:17-49 | a non-POST request answers `Redirect` and changes nothing. A POST whose name is empty or longer than 180 characters answers `Invalid` and changes nothing (no eviction, no save). A valid POST answers `Followed`, leaves the table equal to `Admitted` of the old table, and advances the clock by one. In every case, a count of at most 5 stays at most 5 |

## Left out

- HTTP and Django plumbing: `render`, `redirect`, `reverse`, `messages.error` and the `index` view (`views.py:9-10`, `43-49`). The view's response is reduced to an `Outcome` tag.
- The invalid-form branch (`views.py:44-45`) has no `return`, so the view actually returns `None`. The model reports it only as `Invalid` with the table unchanged. It does not model the framework error that follows.
- ORM mechanics (`objects.count`, `latest`, `delete`, `ModelForm.save`) are modelled as operations on a sequence, not as database queries.
- The real clock behind `date_followed` is replaced by an abstract counter that increases strictly.
- ValidName: does not model Django form cleaning beyond the required and `max_length` checks: stripping whitespace from the submitted value and rejecting NUL characters. The name is taken as submitted, and a missing `name` field is treated as the empty name.
- `LatestIndex`: Django does not specify which row `latest` returns when two rows tie on `date_followed`. The model picks the earliest such row. Ties cannot happen while the stamp invariant holds.
- Concurrency: the race between counting, evicting and saving across simultaneous requests is not modelled. The model is sequential.
- Existence checks against an external feed, fetching top posts, and ranking by score do not appear in the view. They are not part of this model.
