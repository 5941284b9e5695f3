# Rite2Rise events platform — registration bookkeeping in Dafny

A model of the client-side logic of the Rite2Rise (uThrive) events platform.
Providers publish events, users join and leave them, and an admin oversees accounts.
The model covers:

- the browser-storage stores for users (`lib/auth.ts`) and for events and registrations (`lib/data.ts`);
- the events hook that derives registrations from each event's confirmed users and wraps the join, leave, create and fetch calls (`hooks/useEvents.ts`);
- the public events page: optimistic overlay, lookups, click handlers, button choice, list filter and sort, likes, card toggles and comments (`app/events/page.tsx`);
- the provider's event management page and the provider sign-up form;
- the two sign-in state machines: the React context over browser storage, and the server-backed store;
- the admin dashboard's guard, role lists, deletions and provider approval.

Browser storage is an explicit record, so an absent key differs from a present empty list.
An HTTP exchange is an abstract `Response`: either it threw, or it answered with `ok`, the body's `message` and the rest of the body.
Dates are integer timestamps, and the current time `now` is a parameter.
Generated ids are parameters too.
Case folding is a caller-supplied `lower` function.
A decoded token is an input.

Modules, one per source file or shared concept:

- `Types`: records, roles, `Option`, `Response`, `Settled`, JavaScript truthiness of a capacity and of a message.
- `Seqs`: `filter`, `some`, `findIndex` and `find`.
- `Text`: `trim`, `includes`, `parseInt` and `toString`.
- `Registry`: registration lookups shared by the stores and the pages.
- `LocalAuth` and `LocalData`: the two browser-storage stores.
- `EventsHook`, `EventsPage`, `EventList` and `CardState`: the public events page and its hook.
- `ProviderEvents` and `ProviderSignup`: the provider pages.
- `AuthContext` and `AuthStore`: the two sign-in state machines.
- `AdminDashboard`: the admin page.

## Model

| member | source | states |
|---|---|---|
| `RoleNameInjective` | types/index.ts:1 | The three role names are distinct, so comparing role strings compares roles |
| `MessageOr` | store/useStore.ts:91 | `message \|\| fallback`: a present non-empty message wins; an absent or empty one gives the fallback |
| `Text.TrimEmptyIffBlank` | app/provider/events/page.tsx:83-86 | A field trims to "" exactly when it is all white space, which is what every `!x.trim()` check tests |
| `Text.ParseIntToString` | app/provider/events/page.tsx:106 | `parseInt` of an integer's decimal text gives the integer back, negative values included |
| `LocalAuth.InitializeUsers` | lib/auth.ts:7-20 | Seeds the default admin only when the users key is absent; a present list (even empty) is untouched |
| `LocalAuth.GetUsers` | lib/auth.ts:22-27 | Reading the users list first seeds it, so the read returns the seeded list and leaves it stored |
| `LocalAuth.RegisterUser` | lib/auth.ts:33-59 | A taken email fails with the duplicate message and stores nothing new; otherwise exactly one account with the given email, password, name and role is appended |
| `LocalAuth.LoginUser` | lib/auth.ts:61-73 | Succeeds iff some account matches both email and password; returns and stores the first match; a failure keeps the stored current user |
| `LocalAuth.LogoutUser` | lib/auth.ts:75-83 | After logout the current user reads as null and the users list is untouched |
| `LocalAuth.InitializeUsersValid` | lib/auth.ts:7-20 | Seeding keeps the directory's emails unique |
| `LocalAuth.RegisterUserKeepsEmailsUnique` | lib/auth.ts:42-56 | Registration preserves email uniqueness |
| `LocalAuth.RegisterThenLogin` | lib/auth.ts:42-72 | Right after a successful registration, logging in with the same credentials succeeds and returns the new account |
| `LocalAuth.EmptyListNotReseeded` | lib/auth.ts:8-9 | A present empty users list is not reseeded |
| `LocalData.DeleteEvent` | lib/data.ts:32-41 | Removes every event with the id and every registration naming it; everything else is kept |
| `LocalData.DeleteUser` | lib/data.ts:26-30 | Keeps exactly the accounts with another id; an absent users key reads as an empty list |
| `LocalData.RegisterForEvent` | lib/data.ts:43-81 | Guards in order (already registered, no such event, full, past), the first failure deciding the reply; success appends exactly one registration at the end |
| `LocalData.UnregisterFromEvent` | lib/data.ts:83-109 | Guards in order (not registered, no such event, past); success removes exactly the first matching entry and keeps the rest in order |
| `LocalData.InitializeDummyEvents` | lib/data.ts:111-196 | The seed list is all commented out, so seeding changes nothing |
| `LocalData.FailuresDoNotWrite` | lib/data.ts:47-67 | Every failed register or unregister leaves the stored state unchanged |
| `LocalData.RegisterCounts` | lib/data.ts:59-80 | A successful registration raises that event's count by one and no other event's count |
| `LocalData.RegisterUnregisterRoundTrip` | lib/data.ts:77-108 | Registering and then unregistering the same pair restores the registration list exactly |
| `LocalData.UnregisterAfterRegisterSucceeds` | lib/data.ts:88-105 | A registration that just succeeded can be undone at the same instant |
| `LocalData.RegistrationsStayUnique` | lib/data.ts:48-50 | No (event, user) pair is ever registered twice |
| `LocalData.RegisterKeepsCapacity` | lib/data.ts:59-62 | Registration never takes an event with a positive capacity past it |
| `LocalData.UnregisterKeepsCapacity` | lib/data.ts:104-106 | Unregistering keeps every event within capacity |
| `LocalData.DeleteEventKeepsCapacity` | lib/data.ts:32-41 | Deleting an event keeps every remaining event within capacity |
| `LocalData.DeleteEventKeepsOrder` | lib/data.ts:34-39 | Deletion keeps the relative order of what remains |
| `EventsHook.UserRegistrations` | hooks/useEvents.ts:18-27 | One registration per confirmed user, in order, with id `eventId-userId` |
| `EventsHook.DeriveRegistrations` | hooks/useEvents.ts:15-30 | Registrations are rebuilt from nothing and every one names an event of the list |
| `EventsHook.SyncParticipants` | hooks/useEvents.ts:17-29 | An event with confirmed users gets `currentParticipants` equal to their number; an event without is left as it is |
| `EventsHook.DeriveAppend` | hooks/useEvents.ts:16-28 | Derivation goes event by event: deriving a concatenation concatenates the derivations |
| `EventsHook.DerivedCountIsTotal` | hooks/useEvents.ts:16-29 | The derived list has one entry per confirmed user over all events |
| `EventsHook.SyncKeepsDerivation` | hooks/useEvents.ts:29 | Syncing the counts is idempotent and does not change what is derived |
| `EventsHook.DerivedCountMatchesConfirmed` | hooks/useEvents.ts:16-28 | With distinct event ids, the derived count for an event is its confirmed-user count |
| `EventsHook.DerivedRegisteredIffConfirmed` | hooks/useEvents.ts:16-28 | With distinct event ids, a user counts as registered for an event iff a confirmed user of it has their id |
| `EventsHook.CreateEvent` | hooks/useEvents.ts:33-64 | Ok appends the returned event at the end and clears the error; otherwise events stay and the error is the message or "Something went wrong"; loading ends |
| `EventsHook.GetAllEvents` | hooks/useEvents.ts:96-124 | Ok replaces the events wholesale (absent list as []); a failure keeps them and sets the error; loading ends |
| `EventsHook.CreateEventDerivation` | hooks/useEvents.ts:15-64 | After an ok create, the derived registrations are the old ones followed by the new event's, so a fresh id counts exactly its confirmed users; a failed create leaves them unchanged |
| `EventsHook.GetAllEventsDerivation` | hooks/useEvents.ts:15-30 | After an ok fetch, the registrations are derived from the fetched list alone, and with distinct ids each fetched event counts its confirmed users; a failed fetch leaves them unchanged |
| `EventsPage.IsUserRegistered` | app/events/page.tsx:151-159 | Nobody is registered when signed out; without an overlay entry, registered iff some registration pairs the event with the user's id |
| `EventsPage.RegistrationCount` | app/events/page.tsx:161-166 | Without an overlay entry, the count is between 0 and the number of registrations, and positive only if one names the event |
| `EventsPage.IsEventFull` | app/events/page.tsx:168-172 | An event without a truthy capacity is never full; a full event shows a count at or above its capacity |
| `EventsPage.OverlayTakesPrecedence` | app/events/page.tsx:151-172 | An overlay entry alone decides the flag, the count and fullness, whatever the registrations hold; without one, both read the registrations |
| `EventsHook.RegisterUserForEvent` | hooks/useEvents.ts:127-152 | Resolves to a success object iff the response is ok, otherwise to `undefined`; never sets the error; leaves loading on |
| `EventsHook.UnregisterUserFromEvent` | hooks/useEvents.ts:155-182 | Resolves to `{success:false, message}` on any failure and sets the error; success iff ok; loading always ends |
| `EventsHook.JoinEvent` | hooks/useEvents.ts:127-152 | The intended join: reports failures like the leave call and always ends loading |
| `EventsHook.JoinLeavesLoading` | hooks/useEvents.ts:128-151 | As written a join leaves loading on whatever the answer; the intended one never does |
| `EventsPage.StartRegister` | app/events/page.tsx:198-207 | Marks the event processing and shows it joined with one more participant; no other entry changes |
| `EventsPage.FinishRegister` | app/events/page.tsx:208-230 | A truthy result confirms, `undefined` does nothing, a throw deletes the entry and shows the error; processing ends on every path |
| `EventsPage.HandleRegister` | app/events/page.tsx:198-238 | No user changes nothing; a resolved join shows the user registered with count + 1; a throw leaves no entry; other events' entries untouched |
| `EventsPage.StartUnregister` | app/events/page.tsx:240-249 | Shows the event left with `max(0, count - 1)` participants |
| `EventsPage.FinishUnregister` | app/events/page.tsx:250-280 | Any resolved value shows the success banner; a throw deletes the entry and shows the error; processing ends |
| `EventsPage.HandleUnregister` | app/events/page.tsx:240-288 | No user changes nothing; a resolved leave shows the user not registered with a non-negative count |
| `EventsPage.HandlersTouchOneEvent` | app/events/page.tsx:203-206 | Clicking one card never changes what any other card shows |
| `EventsPage.HandlersKeepCountsNonNegative` | app/events/page.tsx:245-249 | Overlay counts never go negative |
| `EventsPage.JoinThenLeaveRestoresCount` | app/events/page.tsx:203-249 | Joining then leaving shows the original count and the user not registered |
| `EventsPage.FailedJoinKeepsOverlay` | app/events/page.tsx:210-223 | As written a refused join still shows the user joined with count + 1 and no error banner |
| `EventsPage.FailedLeaveShowsSuccess` | app/events/page.tsx:252-258 | As written a refused leave shows the success banner |
| `EventsPage.HandleRegisterReconciled` | app/events/page.tsx:198-238 | The intended join: success confirms; failure takes the page's own rollback, which deletes the event's overlay entry and shows the error |
| `EventsPage.HandleUnregisterReconciled` | app/events/page.tsx:240-288 | The intended leave, with the same rollback |
| `EventsPage.RolledBackView` | app/events/page.tsx:219-223 | After the rollback the clicked card reads the registrations again; every other card is unchanged, and so is the clicked one if it had no entry |
| `EventsPage.ReconciledJoinMatchesServer` | app/events/page.tsx:210-223 | With the intended hook and handler, a refused join shows the clicked card from the registrations, leaves every other card alone and shows the error |
| `EventsPage.ReconciledLeaveMatchesServer` | app/events/page.tsx:252-273 | With the intended handler, a refused leave shows the clicked card from the registrations, leaves every other card alone and shows the error |
| `EventsPage.ViewAgreesWithConfirmedUsers` | app/events/page.tsx:151-166 | Without an overlay entry, the count and the registered flag agree with the event's confirmed users |
| `EventsPage.SelectAction` | app/events/page.tsx:871-959 | First match wins: past, signed out, registered, full, register; both action buttons are disabled while that event is processing |
| `EventsPage.InFlightJoinDisablesCard` | app/events/page.tsx:884-913 | While a join is in flight the card shows the unregister button disabled |
| `EventsPage.InFlightLeaveDisablesCard` | app/events/page.tsx:914-955 | While a leave is in flight the card shows the register button disabled, or "Event Full" |
| `EventsPage.ResolvedJoinShowsRegistered` | app/events/page.tsx:884-898 | After a resolved join the card shows the user registered, with the button enabled again |
| `EventList.Insert` | app/events/page.tsx:138-146 | Inserting adds exactly the one event |
| `EventList.InsertSorted` | app/events/page.tsx:138-146 | Inserting into a sorted list keeps it sorted |
| `EventList.Sort` | app/events/page.tsx:138-146 | The result is a permutation of the input, sorted by the date key |
| `EventList.Searched` | app/events/page.tsx:116-128 | An empty term keeps everything; otherwise keeps exactly the events whose lowered name, description (null as ""), location or provider name contains the lowered term |
| `EventList.Windowed` | app/events/page.tsx:130-135 | "upcoming" keeps date > now, "past" keeps date <= now, "all" keeps everything |
| `EventList.FilterEvents` | app/events/page.tsx:113-149 | An event is shown iff it is in the input, passes the search and is in the window; ascending by date for "upcoming", descending otherwise |
| `EventList.FilterEventsMultiset` | app/events/page.tsx:113-149 | Each kept event appears as often as in the input, each other event not at all |
| `EventList.UpcomingAndPastPartition` | app/events/page.tsx:130-135 | The upcoming and past views together are exactly as long as the "all" view |
| `EventList.UpcomingAndPastDisjoint` | app/events/page.tsx:130-135 | No event is both upcoming and past |
| `EventList.FilterEventsIdempotent` | app/events/page.tsx:113-149 | Filtering the view again with the same settings keeps the same events |
| `CardState.ToggleMembership` | app/events/page.tsx:174-192 | Flips membership of the id and no other |
| `CardState.ToggleTwice` | app/events/page.tsx:174-182 | Toggling twice restores the set |
| `CardState.ToggleLike` | app/events/page.tsx:290-304 | Flips the liked flag and moves that counter by one in the matching direction; nothing else changes |
| `CardState.ToggleLikeKeepsCounts` | app/events/page.tsx:290-304 | Starting from no likes, each counter stays 1 for liked and 0 for unliked events |
| `CardState.ToggleLikeTwice` | app/events/page.tsx:290-304 | Like then unlike restores the flag and the counter |
| `CardState.AddComment` | app/events/page.tsx:329-344 | A blank draft or no user changes nothing; otherwise the trimmed draft is appended under the user's name, the draft cleared, other threads untouched |
| `CardState.AddedCommentIsClean` | app/events/page.tsx:330-336 | A stored comment is never empty and has no outer white space |
| `ProviderEvents.Guard` | app/provider/events/page.tsx:36-46 | Signed out goes to the provider login; a role whose name is not "service_provider" goes home |
| `ProviderEvents.GuardAlwaysRedirects` | app/provider/events/page.tsx:41-44 | No role has that name, so every visitor, providers included, is redirected (the same test gates rendering at line 161) |
| `ProviderEvents.GuardIntended` | app/provider/events/page.tsx:36-46 | The intended guard admits exactly the provider role |
| `ProviderEvents.GuardIntendedAdmitsProviders` | app/provider/events/page.tsx:41-44 | The intended guard admits a user iff they are a provider, and sends everyone else home |
| `ProviderEvents.LoadData` | app/provider/events/page.tsx:50-56 | Shows exactly the stored events whose provider id is the user's |
| `ProviderEvents.ParseCapacity` | app/provider/events/page.tsx:106 | An empty field means no capacity; anything else is `parseInt` of it |
| `ProviderEvents.FormError` | app/provider/events/page.tsx:83-92 | A blank name rejects first; then a null description throws; then a blank description or location or an empty date rejects; then a date strictly before now rejects; a date equal to now passes |
| `ProviderEvents.EditWhere` | app/provider/events/page.tsx:96-108 | Rewrites only the events with the edited id, in place; all others and the order are kept |
| `ProviderEvents.Saved` | app/provider/events/page.tsx:94-128 | Editing rewrites in place; creating appends one event |
| `ProviderEvents.HandleSubmit` | app/provider/events/page.tsx:79-133 | A throw leaves the error cleared and changes nothing else; a failed check sets its error and saves nothing; a valid form saves, reloads and resets, ending with an empty success banner |
| `ProviderEvents.HandleSubmitIntended` | app/provider/events/page.tsx:110-126 | The intended submit keeps the "updated" or "created" banner |
| `ProviderEvents.SavedBannerIsLost` | app/provider/events/page.tsx:110-132 | As written a successful save never shows its banner |
| `ProviderEvents.RejectedSubmitSavesNothing` | app/provider/events/page.tsx:83-92 | A blank name or location, or a past date, saves nothing; with a description present it reports one of the two errors |
| `ProviderEvents.CreateAppendsOwnedEvent` | app/provider/events/page.tsx:113-128 | Creating appends one event owned by the user with no participants, which then appears in the user's list |
| `ProviderEvents.EditForm` | app/provider/events/page.tsx:135-145 | The edit form carries the event's date and its description as stored, null included; the capacity field is empty iff the event has no capacity |
| `ProviderEvents.EditRoundTrip` | app/provider/events/page.tsx:96-145 | Writing an event's own edit form back onto it gives the event unchanged, capacity included |
| `ProviderEvents.NullDescriptionEditThrows` | app/provider/events/page.tsx:83-137 | Submitting the untouched edit form of an event with a null description throws: nothing is saved, no error shows and the form stays open |
| `ProviderEvents.ResubmitUnchangedEdit` | app/provider/events/page.tsx:96-111 | With distinct ids, submitting an untouched edit form leaves the stored list as it was |
| `ProviderEvents.EditTouchesOnlyThatEvent` | app/provider/events/page.tsx:96-108 | An edit leaves every event with another id in place |
| `ProviderEvents.HandleEdit` | app/provider/events/page.tsx:135-145 | Opens the form on the event without touching the lists |
| `ProviderEvents.HandleDelete` | app/provider/events/page.tsx:147-155 | Without confirmation nothing changes; with it, every event with the id goes, the list is reloaded and the banner set |
| `ProviderEvents.DeleteIdempotent` | app/provider/events/page.tsx:147-155 | Deleting twice is the same as deleting once |
| `ProviderSignup.Validate` | app/auth/provider/register/page.tsx:44-57 | Mismatch first, then a password shorter than 6 (exactly 6 passes), then a blank business name |
| `ProviderSignup.DisplayName` | app/auth/provider/register/page.tsx:63 | The display name is the name, " (", the business name and ")" |
| `ProviderSignup.Request` | app/auth/provider/register/page.tsx:64-73 | The request registers a provider under the display name with the typed email, password and business name |
| `ProviderSignup.HandleSubmit` | app/auth/provider/register/page.tsx:39-85 | A failed check sets only its error, before loading or any call; success navigates home; failure shows the returned message; an exception shows the generic error; loading ends false |
| `ProviderSignup.SubmitThroughStore` | app/auth/provider/register/page.tsx:64-83 | Through the store, success leaves the provider signed in with the typed email and business name; failure keeps the store's user and shows the store's message |
| `AuthContext.Committed` | contexts/auth-context.tsx:36-38 | A result commits its user iff it succeeded and carries one |
| `AuthContext.Mount` | contexts/auth-context.tsx:28-32 | On mount, memory holds the stored current user and loading ends |
| `AuthContext.Login` | contexts/auth-context.tsx:34-40 | Returns the directory's result unchanged and commits its user only on success |
| `AuthContext.Register` | contexts/auth-context.tsx:42-48 | Returns the directory's result unchanged and commits its user only on success |
| `AuthContext.Logout` | contexts/auth-context.tsx:50-53 | Clears both the stored and the in-memory user |
| `AuthContext.LoginKeepsSync` | contexts/auth-context.tsx:34-40 | Login keeps memory and storage naming the same user |
| `AuthContext.LogoutSyncs` | contexts/auth-context.tsx:50-53 | After logout, memory and storage agree that nobody is signed in |
| `AuthContext.RegisterIsSessionOnly` | contexts/auth-context.tsx:42-48 | A successful registration signs the account in memory only; a remount brings back the previously stored user |
| `AuthContext.FailedRegisterKeepsUser` | contexts/auth-context.tsx:42-48 | A failed registration changes neither memory nor storage |
| `AuthStore.Classify` | store/useStore.ts:88-115 | In order: exception, non-ok (message or fallback), missing token ("Login failed"), undecodable token ("Something went wrong"); accepted only for an ok answer with a decodable token |
| `AuthStore.Login` | store/useStore.ts:77-116 | On acceptance the user is the token's id, `sub` as email, name and role, and the cookie is written with the token and the `exp` claim as its millisecond expiry; otherwise only loading changes; loading always ends |
| `AuthStore.Register` | store/useStore.ts:117-171 | Same checks with "Signup failed"; the user's email is the argument and it carries the business fields; the cookie is written as by login; loading always ends |
| `AuthStore.Logout` | store/useStore.ts:175-177 | Clears the user and nothing else |
| `AuthStore.LoginAndRegisterAgree` | store/useStore.ts:89-111 | Login and signup accept the same responses, build users with the same id, name and role, and differ only in the non-ok fallback |
| `AuthStore.FailureKeepsUser` | store/useStore.ts:89-92 | A failed call never changes the signed-in user |
| `AuthStore.LoginThenLogout` | store/useStore.ts:175-177 | After login then logout nobody is signed in; logout does not touch the cookie written at login |
| `AuthStore.CookieExpiresAtOnce` | store/useStore.ts:97-98 | The cookie's expiry is the `exp` claim read as milliseconds, so at any clock at or past that many milliseconds (any real clock, for a claim in seconds) the cookie is already expired |
| `AdminDashboard.Guard` | app/admin/dashboard/page.tsx:49-58 | Signed out goes to the admin login; any non-admin goes home |
| `AdminDashboard.Load` | app/admin/dashboard/page.tsx:49-66 | Only an admin gets the (seeded) users, events and registrations loaded and loading cleared |
| `AdminDashboard.OnlyAdminsSeeIt` | app/admin/dashboard/page.tsx:88-90 | Content renders only for an admin, and does right after an admin's mount |
| `AdminDashboard.RoleLists` | app/admin/dashboard/page.tsx:92-94 | The three lists hold exactly the users of each role |
| `AdminDashboard.RoleListsPartition` | app/admin/dashboard/page.tsx:92-94 | Their lengths add up to the number of users |
| `AdminDashboard.HandleDeleteUser` | app/admin/dashboard/page.tsx:69-74 | After confirmation the account is removed and the directory reread |
| `AdminDashboard.DeletingEveryoneDoesNotReseed` | app/admin/dashboard/page.tsx:69-74 | Deleting the last account leaves the directory empty; the default admin is not reseeded |
| `AdminDashboard.HandleDeleteEvent` | app/admin/dashboard/page.tsx:76-82 | After confirmation the event and its registrations go and both lists are reloaded |
| `AdminDashboard.ApproveProvider` | app/admin/dashboard/page.tsx:24-46 | Ok refetches the unapproved list; non-ok alerts the message or "Failed to approve provider"; an exception alerts the generic error |
| `AdminDashboard.FailedApprovalAlwaysAlerts` | app/admin/dashboard/page.tsx:37-45 | Every failed approval shows a non-empty alert |

## Left out

- Network, cookies and browser storage are not performed; storage is a record, responses are abstract values, and the cookie is its value and expiry.
- `AuthStore.CookieExpiresAtOnce` compares the expiry with a clock but does not model how the browser drops an expired cookie; a missing `exp` claim (`new Date(undefined)`) is not modelled.
- `Text.ParseInt`: the "0x"/"0X" hexadecimal prefix that `parseInt` accepts without a radix is not modelled; a number input cannot produce it.
- `EventList.FilterEvents` returns a new sequence, whereas with "all" and an empty search `.sort` reorders the hook's own events array in place (app/events/page.tsx:114, 137); that aliasing is not modelled.
- Token decoding is an input; the payload's role is taken as a role, as the unchecked cast in `store/useStore.ts:108` does.
- Generated ids and timestamps (`Date.now()`, `registeredAt`, `createdAt`, comment timestamps) are parameters or omitted; their uniqueness is not modelled.
- Date strings are integer timestamps, so an unparsable date typed into the provider form is not modelled.
- `toLowerCase` is the parameter `lower`.
- `EventList.Sort`: states sortedness and permutation but not stability, although `Array.prototype.sort` is stable and the insertion sort here keeps equal dates in input order.
- `ProviderSignup.Validate`: counts password length in characters, whereas JavaScript counts UTF-16 code units, so one astral character counts once here and twice there.
- `LocalData.WithinCapacity` covers positive capacities only; a negative capacity makes an event always full in the source.
- `parseInt` failure (`NaN`) is `None`; both mean "no limit" wherever a capacity is read.
- `getProviderEvents` in `hooks/useEvents.ts` is not modelled; none of the modelled pages call it.
- `useAdminStore` and `hooks/useServiceProviders.ts` are not modelled; they only forward server lists.
- Sharing, message timers, random like counts and description-length display on the events page are not modelled.
- `justUnregistered` is not modelled, because all of its writes are commented out.
- On the provider page the registrations list is only displayed, so it is not modelled.
- A provider page deletion leaves the event's registrations behind (unlike `deleteEvent`); this is modelled as written.
- Overlapping asynchronous calls and React render timing are not modelled. Each handler is its synchronous part followed by its part after the awaited call settles.

## Findings

| source | as written | input that shows it | evidently intended | confidence | as-written member | corrected member |
|---|---|---|---|---|---|---|
| hooks/useEvents.ts:143-151 | The join call catches every failure and resolves to `undefined`, so the page's rollback never runs | A join the server refuses with a non-ok status | Roll back the optimistic entry and show the join error | not executed | `EventsPage.FailedJoinKeepsOverlay` | `EventsPage.HandleRegisterReconciled` |
| app/events/page.tsx:252-258 | The page tests the leave result for truthiness, and a `{success:false}` object is truthy | A leave the server refuses with a non-ok status | Test `success` and roll back on failure | not executed | `EventsPage.FailedLeaveShowsSuccess` | `EventsPage.HandleUnregisterReconciled` |
| app/provider/events/page.tsx:42 | The role is compared with "service_provider", which is not a role name, here and again in the render gate at line 161 | A signed-in provider whose role is "serviceProvider" | Compare with "serviceProvider" | not executed | `ProviderEvents.GuardAlwaysRedirects` | `ProviderEvents.GuardIntended` |
| hooks/useEvents.ts:128-151 | The join call sets loading and has no `finally` to clear it | Any join call, accepted or refused | Clear loading on every path, as the leave call does | not executed | `EventsHook.JoinLeavesLoading` | `EventsHook.JoinEvent` |
| app/provider/events/page.tsx:110-132 | `resetForm` clears the success banner set just before it in the same handler | Any valid create or edit submission | Keep the "created"/"updated" banner | not executed | `ProviderEvents.SavedBannerIsLost` | `ProviderEvents.HandleSubmitIntended` |
