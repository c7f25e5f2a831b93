# Vivy doctors list — a Dafny model

This project models the core of the Vivy doctors app. The app pages a doctor
directory in from a remote JSON endpoint and caches it in a local `doctors`
table. It shows the table as a paged list with a title row and a loading
footer. It lets the user search by name, and it keeps a short list of the
doctors visited most recently.

The model covers these pieces:

- **Page URLs.** The endpoint path is built from the optional page key, in two identical copies (`StringExt`, `RemoteDataSource`).
- **Mappers.** Raw records become domain records and list rows (`DomainMapper`, `ViewItemMapper`).
- **Use case.** `UseCase` maps each `Result` the repository emits. `DoctorParams()` has no key.
- **The table.** `Dao` models the table as a map from primary key to row. Its queries are functions of that map. `Dao.DoctorsDao` models the insert and update statements as in-place changes.
- **Visit rule.** `Repository` holds the "recently visited" rule: mark the visited doctor, then un-mark the least recently visited one when more than three are marked.
- **Boundary callback.** `Boundary` models the callback that fetches the next page. It keeps the next page's key and logs the requests and results it hands to the outside world.
- **Status reduction.** `PagingStatus` turns the request helper's status report into `Loading`, `Done` or `Error(message)`.
- **View model.** `ViewModel` routes the search text to the right table query, and models selecting a doctor, navigating and retrying.
- **List adapters.** `DoctorsAdapter`, `ObserverProxy` and `LoadStateAdapter` model the title-row offset, the diff rules, the context menu and the one-row loading footer with its notifications.

Some values come from outside the code and enter the model as parameters:

- the clock, as `now`;
- the rounding of a present rating, as `round`;
- the remote service, as `service`;
- the request helper's decision to run a request, as `helperIdle`.

## Model

| member | source | states |
|---|---|---|
| StringExt.ManipulateUrl | app/src/main/kotlin/io/github/nuhkoca/vivy/util/ext/String.kt:20-36 | every path starts with `interviews/challenges/android/doctors` and ends with `.json` |
| StringExt.ParseManipulatedUrl | app/src/main/kotlin/io/github/nuhkoca/vivy/util/ext/String.kt:30-36 | a null or empty key gives exactly prefix + `.json`; stripping prefix, `-` and `.json` from a keyed path gives back the key exactly |
| StringExt.ManipulateParsedUrl | app/src/main/kotlin/io/github/nuhkoca/vivy/util/ext/String.kt:30-36 | conversely, every path the parse accepts is the path built from the key it yields, and that key is non-empty |
| StringExt.ManipulateUrlInjective | app/src/main/kotlin/io/github/nuhkoca/vivy/util/ext/String.kt:33-34 | distinct non-empty keys give distinct paths |
| StringExt.KeyedUrlIsNotFirstPage | app/src/main/kotlin/io/github/nuhkoca/vivy/util/ext/String.kt:31-35 | a keyed path never equals the keyless one |
| RemoteDataSource.ManipulateUrl | app/src/main/kotlin/io/github/nuhkoca/vivy/data/datasource/DoctorsRemoteDataSource.kt:60-70 | the private copy agrees with the shared one on every key |
| RemoteDataSource.GetDoctorList | app/src/main/kotlin/io/github/nuhkoca/vivy/data/datasource/DoctorsRemoteDataSource.kt:51-57 | the service is asked for exactly the path of the key; success iff the service returns a body in which every doctor has a rating, with the mapped doctors in order and the same last key; a thrown failure is passed on, and a doctor without a rating gives the formatter's failure |
| DateTimeConverter.DateTimeToLong | app/src/main/kotlin/io/github/nuhkoca/vivy/db/converters/DateTimeConverter.kt:33-34 | the result converts back to the same date |
| DateTimeConverter.LongToDateTime | app/src/main/kotlin/io/github/nuhkoca/vivy/db/converters/DateTimeConverter.kt:43-44 | the date's millisecond value is the input |
| DateTimeConverter.LongRoundTrip | app/src/main/kotlin/io/github/nuhkoca/vivy/db/converters/DateTimeConverter.kt:33-44 | millis to date to millis is the identity |
| DateTimeConverter.DateRoundTrip | app/src/main/kotlin/io/github/nuhkoca/vivy/db/converters/DateTimeConverter.kt:33-44 | date to millis to date is the identity |
| DomainMapper.ToDoctor | app/src/main/kotlin/io/github/nuhkoca/vivy/data/mapper/DoctorsDomainMapper.kt:56-97 | a null rating is the formatter's failure and the only one; otherwise the copied fields are unchanged, a null review count becomes 0, null email, website, integration and translation become "", location is built from latitude and longitude, and rating is the rounding of the raw rating |
| DomainMapper.DomainDoctors | app/src/main/kotlin/io/github/nuhkoca/vivy/data/mapper/DoctorsDomainMapper.kt:52-85 | fails iff some raw doctor has no rating; otherwise the same length and order as the raw list, element i mapped from raw element i, and the same last key |
| DomainMapper.Map | app/src/main/kotlin/io/github/nuhkoca/vivy/data/mapper/DoctorsDomainMapper.kt:52-85 | the loop builds exactly `DomainDoctors`: element by element in order, stopping with the failure at the first doctor without a rating |
| ViewItemMapper.ToViewItem | app/src/main/kotlin/io/github/nuhkoca/vivy/domain/mapper/DoctorsViewItemMapper.kt:51-86 | a null rating is the formatter's failure and the only one; otherwise id, name, photo, address and phone are copied, null email and website become "", location from latitude and longitude, rating rounded, not recent, with visiting time the construction time |
| ViewItemMapper.ViewItems | app/src/main/kotlin/io/github/nuhkoca/vivy/domain/mapper/DoctorsViewItemMapper.kt:48-74 | fails iff some doctor of the page has no rating; otherwise one row per raw doctor, in order, with the same last key; a null page gives no rows and no key |
| ViewItemMapper.Map | app/src/main/kotlin/io/github/nuhkoca/vivy/domain/mapper/DoctorsViewItemMapper.kt:48-74 | the loop builds exactly `ViewItems`, element by element in order, stopping with the failure at the first doctor without a rating |
| Dao.NameLike | app/src/main/kotlin/io/github/nuhkoca/vivy/db/dao/DoctorsDao.kt:44-52 | `LOWER(name) LIKE p`: the pattern `%%` matches every name, and a name matched by `%q%` is at least as long as q |
| Dao.NameLikeContains | app/src/main/kotlin/io/github/nuhkoca/vivy/db/dao/DoctorsDao.kt:44-45 | `LOWER(name) LIKE '%q%'` holds iff the lower-cased name contains q lower-cased |
| Dao.GetDoctorList | app/src/main/kotlin/io/github/nuhkoca/vivy/db/dao/DoctorsDao.kt:36-37 | exactly the stored rows not marked recent, each once, by rating descending |
| Dao.GetDoctorsByName | app/src/main/kotlin/io/github/nuhkoca/vivy/db/dao/DoctorsDao.kt:44-45 | exactly the stored rows whose name matches the pattern, each once, by rating descending |
| Dao.GetAllRecentDoctors | app/src/main/kotlin/io/github/nuhkoca/vivy/db/dao/DoctorsDao.kt:54-55 | exactly the recent rows, each once, by visiting time descending, and no row that is not recent |
| Dao.GetRecentDoctorList | app/src/main/kotlin/io/github/nuhkoca/vivy/db/dao/DoctorsDao.kt:51-52 | at most three rows, exactly min(3, matches) of them; all stored, recent and matching; no row twice; by visiting time descending; any matching recent row left out is visited no later than every row returned |
| Dao.RecentCountBounds | app/src/main/kotlin/io/github/nuhkoca/vivy/db/dao/DoctorsDao.kt:57-58 | the recent count is at most the number of stored rows, and zero iff no stored row is recent |
| Dao.RecentCountIsRecentListLength | app/src/main/kotlin/io/github/nuhkoca/vivy/db/dao/DoctorsDao.kt:54-58 | the recent count is the length of the list of all recent rows |
| Dao.GetDoctorsById | app/src/main/kotlin/io/github/nuhkoca/vivy/db/dao/DoctorsDao.kt:47-49 | the row stored under the id when there is one, otherwise none |
| Dao.Upsert | app/src/main/kotlin/io/github/nuhkoca/vivy/db/dao/DoctorsDao.kt:60-62 | inserting with REPLACE adds the keys of the list; rows not in the list are untouched; the last item with a key is the row stored under it; rows stay under their own key |
| Dao.MarkVisited | app/src/main/kotlin/io/github/nuhkoca/vivy/db/dao/DoctorsDao.kt:64-66 | only the row with the id changes: visiting time set, marked recent |
| Dao.Unmark | app/src/main/kotlin/io/github/nuhkoca/vivy/db/dao/DoctorsDao.kt:68-70 | only the row with the id changes: recent flag cleared, visiting time kept |
| Dao.MarkVisitedCount | app/src/main/kotlin/io/github/nuhkoca/vivy/db/dao/DoctorsDao.kt:64-66 | marking a stored row that was not recent raises the recent count by one, otherwise leaves it |
| Dao.UnmarkCount | app/src/main/kotlin/io/github/nuhkoca/vivy/db/dao/DoctorsDao.kt:68-70 | un-marking a recent row lowers the recent count by one, otherwise leaves it |
| Dao.UpsertNonRecentCount | app/src/main/kotlin/io/github/nuhkoca/vivy/db/dao/DoctorsDao.kt:60-62 | inserting rows that are not recent never raises the recent count |
| Dao.DoctorsDao.constructor | app/src/main/kotlin/io/github/nuhkoca/vivy/db/dao/DoctorsDao.kt:33-34 | the table starts empty |
| Dao.DoctorsDao.InsertAll | app/src/main/kotlin/io/github/nuhkoca/vivy/db/dao/DoctorsDao.kt:60-62 | the loop leaves the table equal to `Upsert` of the old table and the list |
| Dao.DoctorsDao.UpdateVisitingTimeById | app/src/main/kotlin/io/github/nuhkoca/vivy/db/dao/DoctorsDao.kt:64-66 | the table becomes `MarkVisited` with the date's milliseconds |
| Dao.DoctorsDao.RemoveFromRecent | app/src/main/kotlin/io/github/nuhkoca/vivy/db/dao/DoctorsDao.kt:68-70 | the table becomes `Unmark` of the old one |
| Dao.DoctorsDao.AllRecentDoctors | app/src/main/kotlin/io/github/nuhkoca/vivy/db/dao/DoctorsDao.kt:54-55 | the loop returns an answer of the all-recent query: every recent row once, by visiting time descending |
| Repository.VisitKeepsRows | app/src/main/kotlin/io/github/nuhkoca/vivy/domain/repository/DoctorsRepository.kt:131-143 | a visit deletes and adds no row and changes only the two visit columns; other rows keep their visiting time; only the visited and the evicted rows can change |
| Repository.VisitMarksRow | app/src/main/kotlin/io/github/nuhkoca/vivy/domain/repository/DoctorsRepository.kt:133 | a stored visited row that is not evicted is recent with visiting time `now` |
| Repository.SmallVisitChangesOnlyRow | app/src/main/kotlin/io/github/nuhkoca/vivy/domain/repository/DoctorsRepository.kt:134-136 | with at most three recent after marking, nothing is evicted and no other row changes |
| Repository.EvictionUnmarksOne | app/src/main/kotlin/io/github/nuhkoca/vivy/domain/repository/DoctorsRepository.kt:136-141 | with more than three recent, exactly one least recently visited row is un-marked, keeping its visiting time, and the count drops by one |
| Repository.VisitKeepsRecentBound | app/src/main/kotlin/io/github/nuhkoca/vivy/domain/repository/DoctorsRepository.kt:136-147 | at most three recent before a visit means at most three after |
| Repository.LatestVisitStaysRecent | app/src/main/kotlin/io/github/nuhkoca/vivy/domain/repository/DoctorsRepository.kt:133-141 | if `now` is later than every other recent time, the visited doctor stays recent with time `now` |
| Repository.LatestVisitHeadsRecentList | app/src/main/kotlin/io/github/nuhkoca/vivy/domain/repository/DoctorsRepository.kt:117-141 | then it is also the first row of every recent list whose pattern its name matches |
| Repository.DoctorsRepository.constructor | app/src/main/kotlin/io/github/nuhkoca/vivy/domain/repository/DoctorsRepository.kt:50-56 | the repository works on the given table |
| Repository.DoctorsRepository.InsertResultIntoDb | app/src/main/kotlin/io/github/nuhkoca/vivy/domain/repository/DoctorsRepository.kt:63-69 | a null body leaves the table unchanged; a list is upserted in full |
| Repository.DoctorsRepository.GetDoctorsByName | app/src/main/kotlin/io/github/nuhkoca/vivy/domain/repository/DoctorsRepository.kt:105-108 | the pattern goes to the name query unchanged |
| Repository.DoctorsRepository.GetRecentDoctors | app/src/main/kotlin/io/github/nuhkoca/vivy/domain/repository/DoctorsRepository.kt:117-120 | the pattern goes to the recent query unchanged: the result is exactly the DAO's recent query for that pattern, so at most three stored, recent, matching rows by visiting time |
| Repository.DoctorsRepository.UpdateVisitingTimeById | app/src/main/kotlin/io/github/nuhkoca/vivy/domain/repository/DoctorsRepository.kt:130-143 | mark at `now`, count, and when more than three are recent un-mark the last of all recent rows by visiting time, which is a least recent one |
| Boundary.DoctorsBoundaryCallback.constructor | app/src/main/kotlin/io/github/nuhkoca/vivy/domain/boundary/DoctorsBoundaryCallback.kt:51 | the key starts null and nothing has been requested |
| Boundary.DoctorsBoundaryCallback.OnZeroItemsLoaded | app/src/main/kotlin/io/github/nuhkoca/vivy/domain/boundary/DoctorsBoundaryCallback.kt:56-62 | one INITIAL request for the path of the current key when the helper runs it; the key is unchanged |
| Boundary.DoctorsBoundaryCallback.OnItemAtEndLoaded | app/src/main/kotlin/io/github/nuhkoca/vivy/domain/boundary/DoctorsBoundaryCallback.kt:67-77 | with a null or empty key, no request and an AFTER success; otherwise one AFTER request for the key's page; the key is unchanged |
| Boundary.DoctorsBoundaryCallback.OnItemAtFrontLoaded | app/src/main/kotlin/io/github/nuhkoca/vivy/domain/boundary/DoctorsBoundaryCallback.kt:93-95 | changes nothing |
| Boundary.DoctorsBoundaryCallback.OnResponse | app/src/main/kotlin/io/github/nuhkoca/vivy/domain/boundary/DoctorsBoundaryCallback.kt:83-109 | the key becomes the body's key (null for a null body); the mapped rows go to the handler, then the success is recorded; when a doctor has no rating the key is still taken, and the only effect is the uncaught formatting exception |
| Boundary.DoctorsBoundaryCallback.OnFailure | app/src/main/kotlin/io/github/nuhkoca/vivy/domain/boundary/DoctorsBoundaryCallback.kt:99-102 | the failure is recorded and the key is unchanged |
| PagingStatus.Messages | app/src/main/kotlin/io/github/nuhkoca/vivy/util/ext/PagingRequestHelper.kt:33-35 | the non-null error messages: none iff every type's message is null; the first one belongs to the first type with a message |
| PagingStatus.GetErrorMessage | app/src/main/kotlin/io/github/nuhkoca/vivy/util/ext/PagingRequestHelper.kt:32-36 | the message of the first request type, in declaration order, that has one; at least one must exist |
| PagingStatus.ToLoadState | app/src/main/kotlin/io/github/nuhkoca/vivy/util/ext/PagingRequestHelper.kt:45-51 | Loading iff some request runs; Error iff none runs and one failed, carrying the first message; Done otherwise |
| PagingStatus.RunningTakesPrecedence | app/src/main/kotlin/io/github/nuhkoca/vivy/util/ext/PagingRequestHelper.kt:47 | any running request gives Loading, whatever errors are present |
| PagingStatus.StatusLiveData.constructor | app/src/main/kotlin/io/github/nuhkoca/vivy/util/ext/PagingRequestHelper.kt:44 | the status starts as Loading |
| PagingStatus.StatusLiveData.OnReport | app/src/main/kotlin/io/github/nuhkoca/vivy/util/ext/PagingRequestHelper.kt:45-51 | each report sets the status to its reduction |
| UseCase.MapResult | app/src/main/kotlin/io/github/nuhkoca/vivy/domain/usecase/DoctorsUseCase.kt:57-65 | Success(data) maps to Success(mapper(data)); Error(failure) to Error with the same failure |
| UseCase.MapResults | app/src/main/kotlin/io/github/nuhkoca/vivy/domain/usecase/DoctorsUseCase.kt:56-65 | one output per input result, in order, each mapped as above |
| UseCase.Execute | app/src/main/kotlin/io/github/nuhkoca/vivy/domain/usecase/DoctorsUseCase.kt:55-66 | the repository is asked for exactly the key of the parameters, and each of its results is mapped in order |
| UseCase.MapResultsIdentity | app/src/main/kotlin/io/github/nuhkoca/vivy/domain/usecase/DoctorsUseCase.kt:57-65 | mapping with the identity changes nothing |
| UseCase.MapResultsCompose | app/src/main/kotlin/io/github/nuhkoca/vivy/domain/usecase/DoctorsUseCase.kt:57-65 | mapping twice equals mapping once with the composed mapper |
| ViewModel.SearchPattern | app/src/main/kotlin/io/github/nuhkoca/vivy/ui/doctors/DoctorsViewModel.kt:75 | the pattern has the `%q%` form with the query inside |
| ViewModel.RouteDoctors | app/src/main/kotlin/io/github/nuhkoca/vivy/ui/doctors/DoctorsViewModel.kt:72-80 | a blank query routes to the paged listing; any other to the name query with `%q%` |
| ViewModel.SearchMatchesContainingNames | app/src/main/kotlin/io/github/nuhkoca/vivy/ui/doctors/DoctorsViewModel.kt:73-75 | a non-blank query keeps exactly the doctors whose lower-cased name contains it |
| ViewModel.BlankQueryShowsNonRecent | app/src/main/kotlin/io/github/nuhkoca/vivy/ui/doctors/DoctorsViewModel.kt:76-78 | a blank query shows exactly the doctors not marked recent |
| ViewModel.SearchIgnoresCase | app/src/main/kotlin/io/github/nuhkoca/vivy/ui/doctors/DoctorsViewModel.kt:75 | a search and its lower-cased form match the same names |
| ViewModel.EmptySearchKeepsAllRecent | app/src/main/kotlin/io/github/nuhkoca/vivy/ui/doctors/DoctorsViewModel.kt:84-86 | the empty query's `%%` pattern keeps every recent doctor |
| ViewModel.DoctorsViewModel.constructor | app/src/main/kotlin/io/github/nuhkoca/vivy/ui/doctors/DoctorsViewModel.kt:50 | the query starts empty, with no selection, no navigation and no listing |
| ViewModel.DoctorsViewModel.OnQuery | app/src/main/kotlin/io/github/nuhkoca/vivy/ui/doctors/DoctorsViewModel.kt:58-62 | a debounced query becomes the current one and nothing else changes |
| ViewModel.DoctorsViewModel.LoadListing | app/src/main/kotlin/io/github/nuhkoca/vivy/ui/doctors/DoctorsViewModel.kt:71 | the trigger creates the listing once |
| ViewModel.DoctorsViewModel.Retry | app/src/main/kotlin/io/github/nuhkoca/vivy/ui/doctors/DoctorsViewModel.kt:88 | nothing without a listing, otherwise exactly one call of its retry |
| ViewModel.DoctorsViewModel.Doctors | app/src/main/kotlin/io/github/nuhkoca/vivy/ui/doctors/DoctorsViewModel.kt:72-80 | the list is an answer of the query the current text routes to |
| ViewModel.DoctorsViewModel.RecentDoctors | app/src/main/kotlin/io/github/nuhkoca/vivy/ui/doctors/DoctorsViewModel.kt:84-86 | the recent list always uses `%query%`, blank or not: at most three recent, matching doctors |
| ViewModel.DoctorsViewModel.SetSelectedDoctor | app/src/main/kotlin/io/github/nuhkoca/vivy/ui/doctors/DoctorsViewModel.kt:90-95 | the doctor is published and its visit recorded once, by the repository's rule |
| ViewModel.DoctorsViewModel.Navigate | app/src/main/kotlin/io/github/nuhkoca/vivy/ui/doctors/DoctorsViewModel.kt:97-99 | the navigation value becomes the detail action id |
| ViewModel.SelectedDoctorHeadsRecentList | app/src/main/kotlin/io/github/nuhkoca/vivy/ui/doctors/DoctorsViewModel.kt:84-95 | selecting a stored doctor whose name matches the search, at a time later than every recent visit, puts it first in the recent list |
| LoadStateAdapter.ItemCountFor | app/src/main/kotlin/io/github/nuhkoca/vivy/ui/doctors/adapter/DoctorsLoadStateAdapter.kt:68-78 | one row iff Loading or Error; none iff Done |
| LoadStateAdapter.NotificationsFor | app/src/main/kotlin/io/github/nuhkoca/vivy/ui/doctors/adapter/DoctorsLoadStateAdapter.kt:42-56 | none for an equal state; removed(0) iff shown to hidden; inserted(0) iff hidden to shown; changed(0) iff shown to shown |
| LoadStateAdapter.NotificationsMatchCount | app/src/main/kotlin/io/github/nuhkoca/vivy/ui/doctors/adapter/DoctorsLoadStateAdapter.kt:42-68 | the notifications take the old item count to the new one, through rows that exist |
| LoadStateAdapter.DoctorsLoadStateAdapter.constructor | app/src/main/kotlin/io/github/nuhkoca/vivy/ui/doctors/adapter/DoctorsLoadStateAdapter.kt:41 | the state starts as Done, with no row |
| LoadStateAdapter.DoctorsLoadStateAdapter.GetItemCount | app/src/main/kotlin/io/github/nuhkoca/vivy/ui/doctors/adapter/DoctorsLoadStateAdapter.kt:68 | the count equals the size the notifications so far give the list |
| LoadStateAdapter.DoctorsLoadStateAdapter.SetLoadState | app/src/main/kotlin/io/github/nuhkoca/vivy/ui/doctors/adapter/DoctorsLoadStateAdapter.kt:42-56 | the state becomes the new value; the emitted notifications are those of the change; the notifications and the count stay in agreement |
| ObserverProxy.Forward | app/src/main/kotlin/io/github/nuhkoca/vivy/util/recyclerview/AdapterDataObserverProxy.kt:33-59 | one event of the same kind; start positions, and both ends of a move, shifted by the header count; counts and payload unchanged |
| ObserverProxy.ForwardRoundTrip | app/src/main/kotlin/io/github/nuhkoca/vivy/util/recyclerview/AdapterDataObserverProxy.kt:37-59 | shifting back by the header count restores the event |
| ObserverProxy.ForwardCompose | app/src/main/kotlin/io/github/nuhkoca/vivy/util/recyclerview/AdapterDataObserverProxy.kt:37-59 | two proxies act as one with the summed offset |
| ObserverProxy.ForwardInjective | app/src/main/kotlin/io/github/nuhkoca/vivy/util/recyclerview/AdapterDataObserverProxy.kt:33-59 | distinct events stay distinct |
| DoctorsAdapter.ItemCount | app/src/main/kotlin/io/github/nuhkoca/vivy/ui/doctors/adapter/DoctorsAdapter.kt:62-64 | the list size plus the title row |
| DoctorsAdapter.ItemViewType | app/src/main/kotlin/io/github/nuhkoca/vivy/ui/doctors/adapter/DoctorsAdapter.kt:86-91 | header type iff position 0, item type at every other position |
| DoctorsAdapter.OnCreateViewHolder | app/src/main/kotlin/io/github/nuhkoca/vivy/ui/doctors/adapter/DoctorsAdapter.kt:46-60 | a holder iff the type is header or item, the title holder iff header; any other type is the IllegalStateException for that type |
| DoctorsAdapter.EveryPositionHasHolder | app/src/main/kotlin/io/github/nuhkoca/vivy/ui/doctors/adapter/DoctorsAdapter.kt:46-91 | every adapter position gets a holder, the title only at 0, and every other position maps to a list index in range |
| DoctorsAdapter.OnBindViewHolder | app/src/main/kotlin/io/github/nuhkoca/vivy/ui/doctors/adapter/DoctorsAdapter.kt:66-70 | the title binds nothing; a doctor row at position p binds list element p - 1 |
| DoctorsAdapter.BindFollowsViewType | app/src/main/kotlin/io/github/nuhkoca/vivy/ui/doctors/adapter/DoctorsAdapter.kt:66-91 | binding at the holder made for each position shows element position - 1, or nothing at 0 |
| DoctorsAdapter.OnMenuItemClick | app/src/main/kotlin/io/github/nuhkoca/vivy/ui/doctors/adapter/DoctorsAdapter.kt:117-155 | for a position, read at click time, that names a list element: the item id is the chosen option's id (map 101, call 102, email 103, website 104), carrying the location, phone, email or website of element position - 1, or null for a placeholder; any other position, such as NO_POSITION, is the IndexOutOfBoundsException for index position - 1 |
| DoctorsAdapter.UnboundRowClickThrows | app/src/main/kotlin/io/github/nuhkoca/vivy/ui/doctors/adapter/DoctorsAdapter.kt:123-129 | a click on a row removed while its menu was open (NO_POSITION) throws for index -2, whatever the list holds |
| DoctorsAdapter.MenuIdsDistinct | app/src/main/kotlin/io/github/nuhkoca/vivy/util/recyclerview/MenuItem.kt:28-31 | the four menu ids are distinct |
| DoctorsAdapter.AreItemsTheSame | app/src/main/kotlin/io/github/nuhkoca/vivy/ui/doctors/adapter/DoctorsAdapter.kt:164-169 | the same item has the same id and the same contents |
| DoctorsAdapter.AreContentsTheSame | app/src/main/kotlin/io/github/nuhkoca/vivy/ui/doctors/adapter/DoctorsAdapter.kt:171-184 | same contents iff the two rows are equal once their visiting time and recent flag are set aside |
| DoctorsAdapter.ItemsSameImpliesContentsSame | app/src/main/kotlin/io/github/nuhkoca/vivy/ui/doctors/adapter/DoctorsAdapter.kt:164-184 | the same item always has the same contents |
| DoctorsAdapter.ContentsSameIgnoresVisit | app/src/main/kotlin/io/github/nuhkoca/vivy/ui/doctors/adapter/DoctorsAdapter.kt:171-184 | same contents iff the rows differ at most in visiting time and recent flag |
| DoctorsAdapter.VisitKeepsContents | app/src/main/kotlin/io/github/nuhkoca/vivy/ui/doctors/adapter/DoctorsAdapter.kt:171-184 | a visit leaves every row's displayed contents the same |
| DoctorsAdapter.ForwardedRangeSkipsHeader | app/src/main/kotlin/io/github/nuhkoca/vivy/ui/doctors/adapter/DoctorsAdapter.kt:75-77 | a forwarded range event about the list names only doctor rows, each mapping back into the original range |

## Left out

- LIKE patterns other than `%q%` are matched as whole strings. Wildcards inside q (`%`, `_`) are not interpreted. Only ASCII letters are case-folded, as SQLite's LOWER and LIKE do by default.
- Rating rounding (DecimalFormat "#.#", HALF_UP, on doubles) is floating point. Rounding a present rating is the `round` parameter, and ratings are reals used only as a sort key. Formatting a null rating throws IllegalArgumentException; that failure is modelled.
- Kotlin `Int` overflow of positions and counts is not modelled. The model uses unbounded integers.
- `Date()` is read once per page, as `now`; the source reads the clock once per row. `System.currentTimeMillis()` in the visit becomes the `now` parameter.
- The 1500 ms quiet period of the search debounce (`DEBOUNCE_IN_MS`) is time and is not modelled; `OnQuery` receives a query after the debounce has let it through. Coroutines, dispatchers and executors, LiveData and Flow delivery are not modelled. The ordering of work across threads is not modelled either.
- ViewModel.IsWhitespace: covers only the whitespace characters below U+0080. Kotlin's `isBlank` also treats the Unicode space separators as blank.
- `queryLiveData` holds a non-null string, so no null query reaches the routing and none is modelled.
- Room and Paging machinery is not modelled: page sizes (`PAGE_SIZE_DEFAULT`), the paged `Listing` built by `getDoctorList()`, placeholders beyond `null` elements, the transaction wrapper and the LiveData re-query on change.
- The request helper's internals (single-flight per type, `retryAllFailed`, status bookkeeping) are not modelled. Its decision to run a request is the `helperIdle` parameter, and its report is an input to `PagingStatus`.
- PagingStatus.GetErrorMessage: requires that some failed request type has a message. When every failed type's message is null, the source's `first()` throws NoSuchElementException, and the model does not reproduce that crash.
- DoctorsAdapter.AreContentsTheSame: ratings are reals, and the model does not represent NaN or signed zero. Kotlin's `rating == rating` on `Double` is IEEE comparison, false for NaN, so the source reports changed contents for two identical rows rated NaN. DoctorsAdapter.AreItemsTheSame uses the data class's `equals`, which compares doubles with `Double.compare`, so NaN equals itself there and 0.0 differs from -0.0; DoctorsAdapter.ItemsSameImpliesContentsSame therefore holds in the source only for ratings that are not NaN.
- Room returns null for `getDoctorsById` of a missing id; the model returns `None`.
- One raw record type serves both the network `Doctors` of the boundary callback and the `DoctorsRaw` of the remote data source.
- The try/catch wrapper of the remote data source (`handleAsyncWithTryCatch`) is not part of this model. Its effect is modelled: a thrown service call (the `Thrown` reply) or a throwing mapping becomes `Error` carrying the exception. Anything else the wrapper does is not modelled.
- DoctorsAdapter.OnMenuItemClick: the IndexOutOfBoundsException is named by its index only; its message is not modelled.
- The RecyclerView identity of observer proxies on unregister is not modelled. `unregisterAdapterDataObserver` wraps the observer in a fresh proxy.
- View inflation, binding, click listeners, the retry button, DI wiring and logging are not modelled.
