# Job-alert store

A Dafny model of the state behind the "Job Alerts Agent" page (`app/page.tsx`).
The page holds two lists: the user's job alerts and a fixed list of job
listings. Three handlers replace the alert list:

- `handleCreateAlert` checks the form draft and appends a new alert built from it;
- `toggleAlert` flips the `active` flag of every alert with a given id;
- `deleteAlert` removes every alert with a given id.

Two statistics are computed from the lists on every render: the number of
active alerts and the number of job listings.

The model has three modules:

- `Text` (`text.dfy`) models the two JavaScript string operations the keyword field goes through: `split(',')` (`Split`, with its inverse `Join`) and `trim()` (`Trim`, with the ECMAScript whitespace set). Each is specified by lemmas: the split pieces join back to the input, and `Split` is the only separator-free way to cut a string. The trim is unique and idempotent.
- `Alerts` (`alerts.dfy`) holds the records (`JobAlert`, `Job`, the form `Draft`, and `Frequency` as a closed three-value type) and the seed data. It also holds the pure functions that compute each handler's new alert list (`Create`, `Toggle`, `Delete`), the active-alert filter, and the lemmas about them.
- `Store` (`store.dfy`) has the class `AlertStore`. Its fields are the two lists. Its methods `CreateAlert`, `ToggleAlert` and `DeleteAlert` reassign `alerts` and leave `jobs` alone. Its function `Stats` gives the statistics row.

The functions that compute the page's expressions have no ensures of their own and are specified by the lemmas in the table below:

- `Alerts.IsAcceptable` is the empty-string check of app/page.tsx:80.
- `Alerts.NewAlert` builds the alert object of app/page.tsx:82-89.
- `Alerts.ParseKeywords` is the `split(',').map(k => k.trim())` of app/page.tsx:86.
- `Text.Trim` (`TrimEnd` after `TrimStart`) is the `trim()` on that line.
- `Alerts.ActiveCount` is the `filter(a => a.active).length` of app/page.tsx:237.

The new alert's id is a parameter of `CreateAlert`, because the page takes it from the clock. The page does not guarantee that ids are unique. The model proves that unique ids stay unique under toggle and delete, and also under create when the supplied id is fresh.

The model follows the code literally, including these behaviours:

- A draft is refused only when its title or its keywords is the empty string. A title or keyword field made only of spaces is accepted (`CreateChangesIff`, `CreateWithTwoKeywords`).
- The location defaults to "Any" only when it is the empty string.
- Keywords are not filtered after trimming, so an empty keyword is possible (`KeywordsKeepEmptyField`). "No empty keyword" is therefore not an invariant of the model. What holds is `KeywordShape`: no keyword contains a comma, and none has whitespace at either end.
- Alert ids are not guaranteed to be unique.

## Model

| member | source | states |
|---|---|---|
| `Alerts.Create` | app/page.tsx:79-91 | A draft with an empty title or empty keywords leaves the list unchanged. Any other draft grows the list by one and keeps the earlier alerts in order. The new last alert has the given id, the draft's title and frequency verbatim, `active` set, "Any" as location when the draft's location is empty (the draft's location otherwise), and the comma-split, trimmed keywords. |
| `Alerts.CreateChangesIff` | app/page.tsx:80 | Create changes the list if and only if title and keywords are both non-empty. |
| `Alerts.CreateWithTwoKeywords` | app/page.tsx:80-88 | Take a draft with a non-empty title (spaces allowed), an empty location, and keywords `a,<whitespace>b`, where `a` and `b` are comma-free, have no whitespace at either end, and `b` is non-empty. Create appends exactly the alert with location "Any" and keywords `[a, b]`. |
| `Alerts.CreateExample` | app/page.tsx:79-91 | The draft {"SRE", "", "k8s, go", Daily} yields the alert {"SRE", "Any", ["k8s", "go"], Daily, active}. |
| `Alerts.CreateKeepsUniqueIds` | app/page.tsx:83-91 | A create whose id no alert has keeps the ids unique. |
| `Alerts.CreateActiveCount` | app/page.tsx:88-91 | An accepted create raises the active-alert count by one. A refused one leaves it unchanged. |
| `Alerts.ParseKeywordsFields` | app/page.tsx:86 | There are (number of commas + 1) keywords, the number of commas being the multiset count of `,` in the raw string. Keyword `i` is the trimmed `i`-th comma-separated field. The fields join back to the raw string, so the keywords are in input order. |
| `Alerts.KeywordShape` | app/page.tsx:86 | Every keyword is free of commas and has no whitespace at either end. |
| `Alerts.ParseKeywordsSingle` | app/page.tsx:86 | A raw string with no comma gives one keyword, its trim. |
| `Alerts.ParseKeywordsCons` | app/page.tsx:86 | A leading comma-free field becomes the first keyword, trimmed, followed by the keywords of the rest. |
| `Alerts.KeywordsOfTwoFields` | app/page.tsx:86 | Two comma-free fields give their two trims in order. Equal fields give two equal keywords, so duplicates are kept. |
| `Alerts.KeywordsKeepEmptyField` | app/page.tsx:86 | An empty field between two commas is kept as an empty keyword ("a,, b" gives three keywords, the middle one empty). |
| `Alerts.Toggle` | app/page.tsx:96-100 | Length and order are preserved. Each alert changes at most in `active`, and its `active` flips exactly when its id equals the given id. |
| `Alerts.ToggleInvolution` | app/page.tsx:96-100 | Toggling the same id twice restores the list. |
| `Alerts.ToggleAbsent` | app/page.tsx:96-100 | Toggling an id that no alert has changes nothing. |
| `Alerts.ToggleKeepsIds` | app/page.tsx:97-98 | Toggle leaves the sequence of ids unchanged. |
| `Alerts.ToggleCommutes` | app/page.tsx:96-100 | Toggles of two ids commute. |
| `Alerts.ToggleAppend` | app/page.tsx:97-99 | Toggle works element by element: toggling a concatenation is the concatenation of the toggled parts. |
| `Alerts.ToggleKeepsUniqueIds` | app/page.tsx:96-100 | Toggle keeps unique ids unique. |
| `Alerts.ToggleAround` | app/page.tsx:96-100 | Toggling an id that only one alert carries flips `active` on that alert alone and leaves every other alert as it was. |
| `Alerts.ToggleAroundActiveCount` | app/page.tsx:96-100 | Toggling an id that only one alert carries lowers the active count by one if that alert was active and raises it by one if it was paused. |
| `Alerts.ToggleActiveCount` | app/page.tsx:96-100 | With unique ids, toggling an existing alert lowers the active count by one if that alert was active and raises it by one if it was paused. |
| `Alerts.Delete` | app/page.tsx:102-104 | The result is no longer than the input, and none of its alerts has the deleted id. |
| `Alerts.DeleteMembers` | app/page.tsx:103 | An alert is in the result if and only if it was in the input and its id differs from the deleted id. |
| `Alerts.DeleteKeepsOrder` | app/page.tsx:103 | The result is a subsequence of the input, so the remaining alerts keep their relative order. |
| `Alerts.DeleteAppend` | app/page.tsx:103 | Deleting from a concatenation is concatenating the deletions from the parts. |
| `Alerts.DeleteLength` | app/page.tsx:103 | Delete removes as many alerts as carry the id. |
| `Alerts.DeleteRemovesId` | app/page.tsx:102-104 | After a delete no alert has that id. |
| `Alerts.DeleteAbsent` | app/page.tsx:102-104 | Deleting an id that no alert has changes nothing. |
| `Alerts.DeleteIdempotent` | app/page.tsx:102-104 | Deleting twice is deleting once. |
| `Alerts.DeleteRemovesOne` | app/page.tsx:102-104 | With unique ids, deleting an id that is present removes exactly one alert. |
| `Alerts.DeleteKeepsUniqueIds` | app/page.tsx:102-104 | Delete keeps unique ids unique. |
| `Alerts.DeleteActiveCount` | app/page.tsx:103 | A delete never raises the active count, and leaves it unchanged when the id is absent. |
| `Alerts.SeedIdsUnique` | app/page.tsx:27-36 | The initial alert list has unique ids. |
| `Alerts.ActiveAlerts` | app/page.tsx:237 | The filter is no longer than the list, and every alert it keeps is active. |
| `Alerts.ActiveAlertsMembers` | app/page.tsx:237 | An alert is kept by the filter if and only if it is in the list and active. |
| `Alerts.ActiveAlertsAppend` | app/page.tsx:237 | Filtering a concatenation is concatenating the filtered parts. |
| `Alerts.ActiveCountCountsActive` | app/page.tsx:237 | The Active Alerts statistic equals the number of positions whose alert is active. It never exceeds the number of alerts. |
| `Text.Split` | app/page.tsx:86 | `split(',')` gives (number of separators + 1) pieces, none containing the separator. |
| `Text.JoinSplit` | app/page.tsx:86 | Joining the split pieces with the separator gives back the input. |
| `Text.SplitUnique` | app/page.tsx:86 | Any cut of a string into separator-free pieces that join back to it is the split. |
| `Text.SplitAfterPiece` | app/page.tsx:86 | A separator-free piece followed by the separator splits off as the first piece. |
| `Text.OccurrencesIsMultiplicity` | app/page.tsx:86 | The recursive separator count agrees with the multiset count of the separator. |
| `Text.SplitNoSeparator` | app/page.tsx:86 | A string without the separator splits into itself alone. |
| `Text.TrimStartSpec` | app/page.tsx:86 | Removing leading whitespace drops a whitespace prefix and leaves a string that does not start with whitespace. |
| `Text.TrimEndSpec` | app/page.tsx:86 | Removing trailing whitespace drops a whitespace suffix and leaves a string that does not end with whitespace. |
| `Text.TrimSpec` | app/page.tsx:86 | `trim()` yields the part of the input between a whitespace prefix and a whitespace suffix, with no whitespace at either end. |
| `Text.TrimShape` | app/page.tsx:86 | Every character of the trim occurs in the input, and the trim has no whitespace at either end. |
| `Text.TrimOfUnique` | app/page.tsx:86 | At most one string satisfies that description. |
| `Text.TrimKeepsUntrimmed` | app/page.tsx:86 | A string with no whitespace at either end is its own trim. |
| `Text.TrimDropsWhitespace` | app/page.tsx:86 | Trimming whitespace followed by such a string gives that string. |
| `Text.TrimIdempotent` | app/page.tsx:86 | Trimming twice is trimming once. |
| `Store.AlertStore.constructor` | app/page.tsx:27-69 | The store starts with the seed alert and the three seed listings, and the seed alert ids are unique. |
| `Store.AlertStore.CreateAlert` | app/page.tsx:79-91 | The new alert list is `Create` of the old one: the old list for a refused draft, the old list plus the new alert otherwise. Unique ids stay unique when the id is fresh. `jobs` is unchanged. |
| `Store.AlertStore.ToggleAlert` | app/page.tsx:96-100 | The new alert list is `Toggle` of the old one. The ids are unchanged. It is the identity for an absent id. Unique ids stay unique. `jobs` is unchanged. |
| `Store.AlertStore.DeleteAlert` | app/page.tsx:102-104 | The new alert list is `Delete` of the old one. No alert with that id remains. It is the identity for an absent id. Unique ids stay unique. `jobs` is unchanged. |
| `Store.AlertStore.Stats` | app/page.tsx:235-243 | The Active Alerts card is the number of active alerts and is at most the number of alerts. The New Matches card is the number of job listings. |

## Left out

- Rendering: the JSX, CSS classes, emoji labels and the constant "24/7" card (app/page.tsx:106-251) are presentation only.
- The `showNewAlert` flag and the per-field `onChange` updates of the draft (app/page.tsx:71, 121, 135-154, 166) are form plumbing. The draft is a parameter of `CreateAlert`.
- The reset of the form after a create (app/page.tsx:92-93) is not modelled. It sets the draft back to empty strings with frequency Daily.
- `Date.now()` as the id source (app/page.tsx:83) is a clock. The id is a parameter instead.
- React's `useState` machinery and its batching of updates are not modelled. Each handler is one sequential update of the store.
- `setJobs` is never called, so the job list is only read. Job `salary`, `posted` and `match` are display values with no logic and are not fields of `Job`.
- `frequency` is a free string in the page's types. The model allows only the three values the form's select offers.
- JavaScript strings are UTF-16 code units, while Dafny's `char` is a Unicode scalar value. Surrogate pairs are not modelled. The whitespace set is ECMAScript's WhiteSpace and LineTerminator code points.
