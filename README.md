# Futur Génie — verified model of the deterministic core

Futur Génie is a small school-administration web application. It has a
marketing site, a director dashboard (school onboarding, classrooms,
invitation links for teachers and parents), a hosted database with
row-level security, and serverless edge functions. Most of it is
presentation and glue over the hosted services. This project models, in
Dafny, the pieces of it that decide something on their own:

- **HostRouting**: the request middleware. It splits the site between the
  main domain (public pages) and the `app.` subdomain (the dashboard). It
  classifies the path, then either passes the request through or
  redirects it to the other host with the same path.
- **CreateClassroom**: the `director_create_classroom` edge function. A
  ladder of early returns (CORS preflight, configuration, session,
  profile, body) ends in one insert into the classrooms table. The ladder
  is a function. The classrooms table is a class, `ClassroomTable`, and
  the module's `Serve` method runs the ladder and appends the row to it.
- **InvitationLinks**: the director's invitation-link dialog. It selects
  the active links and orders them newest first. It removes a deleted
  link locally, and formats the label, colour, link and message. Its
  component state (`links`, `loading`, `creating`) is a class whose
  methods are the load, create and delete handlers.
- **EnvFile**: the `KEY=VALUE` reader of the RLS diagnosis script,
  including its regular-expression edge cases. `ParseEnv` is the loop,
  proved against the fold `EnvOf`.
- **DiagnoseRls**: the two RLS diagnosis scripts. This covers the
  credential check, the base-condition simulation, the first-match
  recommendation, the order of database requests, and the
  insert-then-delete test on a classrooms table class.
- **StaticSite**: the old static landing page's scripts. This covers the
  FAQ accordion (arrays of flags and heights mutated by a loop), its
  keyboard access, the initials of a default avatar, the image-fallback
  dispatch, the generic placeholder and the breakpoints.
- **Roles**, **Text**, **Options**: the `UserRole` and `GradeLevel`
  enumerations, the ECMAScript string operations the code relies on, and
  Option/Result.

Every call to the hosted services (auth, tables, remote functions), the
clock, `window.location.origin`, `confirm()`, the DOM's measured heights
and the environment are parameters of the model. The answers they give
are inputs.

## Model

| member | source | states |
|---|---|---|
| Roles.RoleCodesDistinct | lib/types/database.ts:1 | the three role codes are pairwise distinct, so comparing codes compares roles |
| Roles.GradeCodesDistinct | lib/types/database.ts:3 | the nine grade codes (CP … CM2, 6EME … 3EME) are pairwise distinct |
| Text.IndexOfFrom | middleware.ts:30 | the result is the first index at or after `from` where the pattern occurs; None means it occurs nowhere there |
| Text.ReplaceFirst | middleware.ts:30 | `replace` with a string pattern; its behaviour on a leading match is stated by ReplaceLeading |
| Text.ReplaceLeading | middleware.ts:30 | `replace` with a string pattern on a string that starts with it replaces exactly that leading occurrence and keeps the rest |
| Text.Trim | supabase/functions/director_create_classroom/index.ts:107 | `trim` is one contiguous slice of the input with only white space before and after it; it is empty exactly when the input is all ECMAScript white space; otherwise it starts and ends with a non-space; an already-trimmed string is unchanged |
| Text.TrimSlice | supabase/functions/director_create_classroom/index.ts:107 | removing white space from the front and then from the back leaves a slice of the input and drops only white space |
| Text.Split | scripts/diagnose-rls.mjs:15 | `split` on one character yields at least one piece, and no piece holds the separator |
| Text.Join | scripts/diagnose-rls.mjs:15 | `join` on one character, the reference inverse of `split`: JoinSplit and SplitJoin state the two round trips |
| Text.JoinSplit | scripts/diagnose-rls.mjs:15 | joining the pieces of a split with the separator gives back the text |
| Text.SplitJoin | _backup-static-site/scripts.js:543 | splitting the join of separator-free pieces gives back the pieces |
| Text.IndexOfChar | scripts/diagnose-rls.mjs:16 | the index found holds the character and no earlier index does; None means the character is absent |
| Text.ToUpper | _backup-static-site/scripts.js:543 | `toUpperCase` keeps the length and maps every character by the letter case table |
| Text.ToLower | components/dashboard/InvitationLinksModal.tsx:97 | `toLowerCase` keeps the length and maps every character by the letter case table |
| HostRouting.Hostname | middleware.ts:5 | the empty-string default of a missing Host header; MissingHostIsMainDomain states that an absent header is a main-domain host |
| HostRouting.IsAppHost | middleware.ts:9 | the `startsWith('app.')` test; RedirectCases, MainToAppNoLoop and AppToMainStripsOneLabel state how it steers the redirect |
| HostRouting.IsAppPath | middleware.ts:12-13 | a raw prefix match against the five dashboard paths; PathClassesDisjoint and PathMatchingExamples state what it accepts |
| HostRouting.IsPublicPath | middleware.ts:16-19 | an exact or `/`-separated parent match against the five public paths; PathClassesDisjoint and PathMatchingExamples state what it accepts |
| HostRouting.IsAuthPath | middleware.ts:22-23 | a raw prefix match against `/login` and `/signup`; PathClassesDisjoint and AuthNeverRedirected state its effect |
| HostRouting.Route | middleware.ts:4-45 | a redirect keeps the path and always changes the host, so no request is redirected to itself; RedirectCases states when and where it redirects |
| HostRouting.SkipSlashes | middleware.ts:31 | the URL parser skips every `/` or `\` after the two that open a network-path reference: what remains is a suffix that does not start with one, and only slashes were dropped |
| HostRouting.Authority | middleware.ts:31 | the authority is the longest prefix free of `/`, `\`, `?` and `#` |
| HostRouting.Location | middleware.ts:31 | `new URL(path, "https://" + host)` yields an address iff the base host has a host name before any port and, for a path opening with two slashes, so does the authority the path names; that address starts with `https://` + the path's authority for such a path, and otherwise starts with `https://` + host and ends with the path |
| HostRouting.RedirectCases | middleware.ts:26-44 | a request is redirected iff it asks for a public path on an `app.` host or an app path on another host; the redirect keeps the path, strips the leading `app.` or prepends `app.` |
| HostRouting.PathClassesDisjoint | middleware.ts:12-23 | no path is both public and app, public and auth, or auth and app |
| HostRouting.AuthNeverRedirected | middleware.ts:22-23 | `/login…` and `/signup…` pass through on either host |
| HostRouting.PathMatchingExamples | middleware.ts:13-23 | `/about/x` is public and `/aboutus` is not; `/` and `//x` are public and `/x` is not; `/dashboardX` is an app path and `/login/reset` an auth path |
| HostRouting.RedirectLocation | middleware.ts:31-40 | for a path starting with one `/` not followed by `/` or `\`, the redirect address is `https://` + the new host + the path and nothing else, or none when the new host has no host name |
| HostRouting.NetworkPathRedirect | middleware.ts:16-31 | a `//rest` path on `app.`+host is redirected; the address then drops the main domain and any further slashes and takes its host from the path, and it throws when the path names no host |
| HostRouting.EmptyNetworkHostThrows | middleware.ts:31 | `//` alone or `//:port` names no host, so building the address throws whatever the main domain |
| HostRouting.ExtraSlashesSkipped | middleware.ts:31 | one more leading slash on a `//` path resolves to the same address |
| HostRouting.NetworkHostTaken | middleware.ts:31 | `//name/…` resolves to `https://name/…` for any host name free of authority delimiters, whatever the main domain |
| HostRouting.BareAppHostThrows | middleware.ts:26-31 | on the host `app.` or `app.:port`, a public page is redirected to a host with no host name, so building the address throws |
| HostRouting.MissingHostIsMainDomain | middleware.ts:5-9 | no Host header behaves as the empty host, which is a main-domain host; an app path goes to the bare `app.` host |
| HostRouting.MainToAppNoLoop | middleware.ts:37-40 | after a main-to-app redirect the new host is an `app.` host whose address always builds and on which the same path passes through |
| HostRouting.AppToMainStripsOneLabel | middleware.ts:26-31 | an app-to-main redirect removes only the leading `app.`, so the host shrinks; the address fails to build exactly when nothing or only a port is left or a `//` path names no host; the path passes through on the new host unless it still starts with `app.` |
| CreateClassroom.BodyFields | supabase/functions/director_create_classroom/index.ts:106 | the `.catch(() => ({}))` default; MalformedBodyIsEmptyObject states that an unparseable body is handled as `{}` |
| CreateClassroom.ReadName | supabase/functions/director_create_classroom/index.ts:107 | `body?.name?.trim()`: nothing iff the name is missing or null, a text iff it is a string, a TypeError otherwise; InsertOnlyForDirectorWithSchool states that the text inserted is the trimmed name |
| CreateClassroom.ReadGrade | supabase/functions/director_create_classroom/index.ts:108 | `body?.grade`: present iff the body has a `grade` property, and then exactly its value |
| CreateClassroom.NameThrows | supabase/functions/director_create_classroom/index.ts:107 | the name is present but not a string, so `trim` throws; StatusCharacterisation maps it to 500 |
| CreateClassroom.BodyAccepted | supabase/functions/director_create_classroom/index.ts:110-123 | neither `!name` nor `!grade` holds, so the request is not refused as incomplete; StatusCharacterisation, BlankNameRejected and GradeNotValidated state its outcomes |
| CreateClassroom.Check | supabase/functions/director_create_classroom/index.ts:13-134 | the check ladder refuses only with 400, 401, 403 or 500, and reaches the insert only for a director with a school and a non-empty name; StatusCharacterisation and InsertOnlyForDirectorWithSchool state it fully |
| CreateClassroom.Answer | supabase/functions/director_create_classroom/index.ts:136-157 | every response carries the CORS headers, and it carries a row exactly when the insert was reached and stored |
| CreateClassroom.Serve | supabase/functions/director_create_classroom/index.ts:11-173 | the response is the ladder's answer; exactly one row, the stored draft, is appended when the store accepts the insert; the table is unchanged otherwise |
| CreateClassroom.PreflightFirst | supabase/functions/director_create_classroom/index.ts:13-18 | OPTIONS gets 200 "ok" with the CORS headers, whatever the rest of the input |
| CreateClassroom.StatusCharacterisation | supabase/functions/director_create_classroom/index.ts:13-171 | each of 200, 400, 401, 403, 500 is characterised exactly by the checks that pass and the first one that fails; no other status occurs |
| CreateClassroom.InsertOnlyForDirectorWithSchool | supabase/functions/director_create_classroom/index.ts:90-132 | the insert is reached iff every check passes; the row then has the trimmed non-empty name, the grade as sent, and the caller's profile school |
| CreateClassroom.CheckReadsNameAndGrade | supabase/functions/director_create_classroom/index.ts:105-110 | two requests with the same method, name and grade get the same outcome |
| CreateClassroom.BodyCannotChooseSchool | supabase/functions/director_create_classroom/index.ts:126-132 | changing any body field other than `name` and `grade` (such as `school_id`) does not change the outcome |
| CreateClassroom.MalformedBodyIsEmptyObject | supabase/functions/director_create_classroom/index.ts:106-123 | an unparseable body is handled as `{}`, and for an authorised director it gets 400 "Missing name or grade" |
| CreateClassroom.BlankNameRejected | supabase/functions/director_create_classroom/index.ts:107-123 | a whitespace-only name gets 400 "Missing name or grade" |
| CreateClassroom.GradeNotValidated | supabase/functions/director_create_classroom/index.ts:108-149 | any non-empty string grade reaches the insert unchanged; a store rejection becomes 400 with the store's message |
| CreateClassroom.ResponsesCarryCors | supabase/functions/director_create_classroom/index.ts:151-157 | every response carries the CORS headers; a non-preflight 200 carries exactly the stored row, whose school is the caller's |
| InvitationLinks.IsActive | components/dashboard/InvitationLinksModal.tsx:35-37 | the query's `classroom_id`, `used_at is null` and `expires_at > now` filter; ActiveOnly and ActiveLinksSpec state the selection it makes |
| InvitationLinks.ActiveOnly | components/dashboard/InvitationLinksModal.tsx:32-37 | each link occurs in the selection as often as in the table if it is this classroom's, unused and unexpired, and otherwise not at all |
| InvitationLinks.InsertByDate | components/dashboard/InvitationLinksModal.tsx:38 | inserting adds exactly one element and puts either it or the old first element first |
| InvitationLinks.InsertKeepsNewestFirst | components/dashboard/InvitationLinksModal.tsx:38 | inserting into a newest-first list keeps it newest first |
| InvitationLinks.SortNewestFirst | components/dashboard/InvitationLinksModal.tsx:38 | the result is ordered by `created_at` descending and is a permutation of the input |
| InvitationLinks.ActiveLinks | components/dashboard/InvitationLinksModal.tsx:30-41 | the listed links are newest first, and each link occurs as often as in the table if it is active and otherwise not at all |
| InvitationLinks.ActiveLinksSpec | components/dashboard/InvitationLinksModal.tsx:30-41 | the listed links are exactly the classroom's links with no `used_at` and `expires_at` after now, with their multiplicities, newest first |
| InvitationLinks.WithoutLink | components/dashboard/InvitationLinksModal.tsx:115 | `filter` by id never lengthens the list; WithoutLinkContents, WithoutLinkKeepsOrder and WithoutAbsentLink state what it keeps |
| InvitationLinks.WithoutLinkContents | components/dashboard/InvitationLinksModal.tsx:115 | after removal no link has the id, and every other link keeps its multiplicity |
| InvitationLinks.WithoutLinkKeepsOrder | components/dashboard/InvitationLinksModal.tsx:115 | removal works part by part, so the remaining links keep their relative order |
| InvitationLinks.WithoutAbsentLink | components/dashboard/InvitationLinksModal.tsx:115 | removing an id no listed link carries leaves the list unchanged |
| InvitationLinks.RoleLabel | components/dashboard/InvitationLinksModal.tsx:122-131 | the label is the role code exactly for the role the switch has no case for (DIRECTOR) |
| InvitationLinks.RoleColor | components/dashboard/InvitationLinksModal.tsx:133-142 | every colour is a theme custom property `var(--…)` |
| InvitationLinks.LabelsAndColoursDistinct | components/dashboard/InvitationLinksModal.tsx:122-142 | labels and colours are injective on roles; a director is labelled with its role code |
| InvitationLinks.LowerCasedLabels | components/dashboard/InvitationLinksModal.tsx:97 | the lower-cased labels are "enseignant", "parent" and "director" |
| InvitationLinks.FullLink | components/dashboard/InvitationLinksModal.tsx:101-103 | the link starts with origin + `/invite/`, and the token is all that follows |
| InvitationLinks.InvitationMessage | components/dashboard/InvitationLinksModal.tsx:96-99 | the message ends with the token; MessageContents states the rest |
| InvitationLinks.MessageContents | components/dashboard/InvitationLinksModal.tsx:96-99 | the message is the fixed text with the lower-cased role and the class name, and it ends with the token |
| InvitationLinks.CreateFailure | components/dashboard/InvitationLinksModal.tsx:63-80 | there is no alert (and the list reloads) exactly when the call returned without a truthy `error`; a transport error always alerts, with its message when it has one; a returned `error` is shown as is; an alert is never empty |
| InvitationLinks.InvitationLinksModal.constructor | components/dashboard/InvitationLinksModal.tsx:21-23 | the dialog starts with no links, loading, and no creation pending |
| InvitationLinks.InvitationLinksModal.LoadLinks | components/dashboard/InvitationLinksModal.tsx:30-47 | on rows the list becomes the active links; on an error it is kept; loading ends either way |
| InvitationLinks.InvitationLinksModal.StartCreateLink | components/dashboard/InvitationLinksModal.tsx:49-50 | a press starts a creation iff none is pending, which then disables both buttons |
| InvitationLinks.InvitationLinksModal.FinishCreateLink | components/dashboard/InvitationLinksModal.tsx:56-83 | the pending creation is cleared whatever happens; the list reloads only on success; a failure alerts and leaves the list alone |
| InvitationLinks.InvitationLinksModal.DeleteLink | components/dashboard/InvitationLinksModal.tsx:105-120 | a confirmed, successful delete removes that id from the list; a cancelled or failed one leaves it, and a failed one alerts |
| EnvFile.Groups | scripts/diagnose-rls.mjs:16 | no `=`, a leading `=` or a final `\r` means no match; a match has a non-empty key without `=` and a value without line terminators |
| EnvFile.MatchLine | scripts/diagnose-rls.mjs:16-18 | no `=`, a leading `=` or a final `\r` contributes nothing |
| EnvFile.MatchSplit | scripts/diagnose-rls.mjs:16-18 | `key=value`, with `=` absent from the key and the value free of line terminators, reads as trimmed key and trimmed value, further `=` included |
| EnvFile.TerminatorInValueRejects | scripts/diagnose-rls.mjs:16 | a value containing a line terminator rejects the line |
| EnvFile.EnvOf | scripts/diagnose-rls.mjs:14-20 | the variables of a file as the fold of its line matches; EnvKeys, LastLineWins and NonMatchingLineIgnored state what it holds |
| EnvFile.ParseEnv | scripts/diagnose-rls.mjs:14-20 | the loop over the `\n`-separated lines yields the fold of the line matches |
| EnvFile.EnvKeys | scripts/diagnose-rls.mjs:15-19 | a key is present iff some line matches with that key |
| EnvFile.LastLineWins | scripts/diagnose-rls.mjs:18 | the value of a key is the one on its last matching line |
| EnvFile.NonMatchingLineIgnored | scripts/diagnose-rls.mjs:15-19 | removing a non-matching line anywhere leaves the map unchanged |
| EnvFile.CrlfFileIsEmpty | scripts/diagnose-rls.mjs:15-16 | a CRLF file (each line empty or ending in `\r`) yields no variables |
| DiagnoseRls.CheckCredentials | scripts/diagnose-rls.ts:7-12 | the run proceeds iff both variables are present and non-empty; otherwise it exits with status 1 reporting which were set, never both |
| DiagnoseRls.FileCredentials | scripts/diagnose-rls.mjs:14-30 | the credentials read from `.env.local`; CrlfFileMissesCredentials states its CRLF behaviour |
| DiagnoseRls.CrlfFileMissesCredentials | scripts/diagnose-rls.mjs:14-30 | with a CRLF `.env.local` the script exits with status 1 as if both variables were missing |
| DiagnoseRls.BaseCheck | scripts/diagnose-rls.mjs:90-104 | passes iff the user has a school and the DIRECTOR role; otherwise each failing condition is flagged independently, at least one |
| DiagnoseRls.Recommend | scripts/diagnose-rls.mjs:176-195 | the first-match advice; RecommendationAgreesWithBaseCheck states how it relates to the base check |
| DiagnoseRls.RecommendationAgreesWithBaseCheck | scripts/diagnose-rls.ts:179-198 | the first-match advice blames the policies iff the base check passes; a non-director without a school is sent to onboarding; no user gets both flags and the create-user advice |
| DiagnoseRls.Queries | scripts/diagnose-rls.ts:7-174 | missing credentials make no request; otherwise the user is fetched first; only the TypeScript variant asks for the policies |
| DiagnoseRls.ClassroomQueriesNeedSchool | scripts/diagnose-rls.mjs:109-171 | classroom and school requests happen only with a school and name that school; a delete targets only the id the insert returned, right after it |
| DiagnoseRls.ClassroomsTable.InsertionTest | scripts/diagnose-rls.ts:112-151 | a failed insert changes nothing; a successful one is followed by a delete of exactly that id; a failed delete leaves the test row and reports it for manual removal |
| DiagnoseRls.TestRow | scripts/diagnose-rls.mjs:109-113 | the test classroom carries the given id and school, the fixed test name and the grade code "CP" |
| DiagnoseRls.WithoutId | scripts/diagnose-rls.mjs:134-137 | `.delete().eq('id', id)` keeps exactly the rows with another id; DeleteAfterAppendRestores relates it to the insert |
| DiagnoseRls.TestLeavesTableAsFound | scripts/diagnose-rls.ts:131-147 | with a fresh id, insert-then-delete restores the table exactly; the test row is named "TEST DIAGNOSTIC - À SUPPRIMER" with grade code "CP" |
| StaticSite.AfterClick | _backup-static-site/scripts.js:22-42 | after a click on item i, item i is open iff it was closed, and every other item is closed |
| StaticSite.AtMostOneOpen | _backup-static-site/scripts.js:15-44 | after any click at most one item is open: none if the clicked one was open, exactly it otherwise |
| StaticSite.ClickTwice | _backup-static-site/scripts.js:35-41 | a second click on the same item restores its flag and keeps all others closed |
| StaticSite.FaqAccordion.constructor | _backup-static-site/scripts.js:15-20 | the accordion starts with every item closed and every answer collapsed |
| StaticSite.FaqAccordion.Click | _backup-static-site/scripts.js:22-42 | the flags become the click's successor state, and every open answer has its scroll height while every closed one has height 0 |
| StaticSite.FaqAccordion.KeyDown | _backup-static-site/scripts.js:372-380 | Enter or Space on a question acts exactly as a click on it; anything else changes nothing |
| StaticSite.Initials | _backup-static-site/scripts.js:542-543 | the avatar initials; InitialsAreWordStarts and InitialsOfName state what they are |
| StaticSite.InitialsAreWordStarts | _backup-static-site/scripts.js:542-543 | the initials are the upper-cased characters that start a space-separated word, no longer than the text |
| StaticSite.InitialsOfName | _backup-static-site/scripts.js:542-543 | for words joined by single spaces, the initials are each word's upper-cased first letter, in order |
| StaticSite.FirstRule | _backup-static-site/scripts.js:500-531 | the rule chosen matches the address and no earlier rule does; None means no rule matches |
| StaticSite.FallbackFor | _backup-static-site/scripts.js:500-531 | the fallback dispatch; FirstMatchApplies, GenericOnlyWithoutMatch and HeroImageFirst state which fallback applies |
| StaticSite.FirstMatchApplies | _backup-static-site/scripts.js:500-531 | the fallback used is that of the first pattern, in source order, that the address contains |
| StaticSite.GenericOnlyWithoutMatch | _backup-static-site/scripts.js:527-530 | the generic placeholder is used iff the address contains none of the nine patterns |
| StaticSite.HeroImageFirst | _backup-static-site/scripts.js:505-507 | an address containing `hero-illustration.png` always gets the hero fallback |
| StaticSite.GenericPlaceholderFor | _backup-static-site/scripts.js:590-608 | a non-zero width or height and a non-empty alt text are kept; otherwise the width is 200, the height 150 and the text "Image non disponible"; so it is never zero-sized or blank |
| StaticSite.IsMobile | _backup-static-site/scripts.js:437-439 | the mobile breakpoint; BreakpointsDisjoint relates it to the tablet one |
| StaticSite.IsTablet | _backup-static-site/scripts.js:441-443 | the tablet breakpoint; BreakpointsDisjoint relates it to the mobile one |
| StaticSite.BreakpointsDisjoint | _backup-static-site/scripts.js:438-444 | no width is both mobile and tablet; together they are exactly the widths up to 1024 |

## Left out

- Strings are sequences of Unicode scalar values, where the JavaScript code uses UTF-16 code units. `n[0]` of a word starting with an astral character would give half a surrogate pair there.
- Text.ToUpper and Text.ToLower: the case tables cover ASCII and Latin-1 letters only, not the full Unicode case mapping (for example `ß` to `SS`). Every string the model lower-cases is ASCII.
- JSON numbers are integers. Floating point, `NaN` and `-0` are not modelled. Arrays and objects are one truthy value.
- In the edge function the only exception modelled is the TypeError of `body?.name?.trim()` on a non-string name, which the handler's catch turns into 500 "Unexpected error". Exceptions thrown inside the hosted client calls are not modelled.
- The session, profile, insert and delete calls, the link query, the issuing function `generate_invitation_link` and the policy RPC are inputs. Their own rules (token issuance, uniqueness, expiry, redemption, row-level security) are not part of this model.
- The fields the policy RPC prints, and all console output, are not modelled.
- Timestamps are integers on one clock. The store compares `expires_at` against the current time, which is a parameter.
- HostRouting.Route: when building the redirect address throws (the host `app.` or `app.:port`, where nothing is left before the port, or a `//` path that names no host), the framework answers with its own error response. The model records this as `Location` returning None and does not model that response. Other hosts the URL parser rejects, such as forbidden characters or a bad port, count as valid here.
- HostRouting.RedirectLocation: stated only for paths that start with a single `/`. The framework's own normalisation of the request path before the middleware, and the URL parser beyond the three path shapes `Location` distinguishes, are not modelled. The `config.matcher` pattern is framework configuration and is left out.
- HostRouting.Location: the address is the text the URL parser reads, not the serialised `href`. Its normalisations are not modelled: a `/` added after a bare host (`//x` gives `https://x/`), `\` in the path turned into `/`, the host lower-cased and IDNA-encoded, percent-encoding, a `user@` prefix in the authority, and the check that a port is numeric.
- InvitationLinks: overlapping asynchronous handlers (a double click, a reload racing a delete) and the stale `links` closure in `deleteLink` are not modelled. Each handler runs to completion on the state it starts from. Clipboard copy is left out.
- DiagnoseRls.FileCredentials: it takes the text of `.env.local` as a parameter. When the file is missing or unreadable, `readFileSync` throws and the script dies with an uncaught error before any check; that path is not modelled.
- EnvFile: a key such as `__proto__`, which a plain JavaScript object treats specially, is stored like any other key.
- StaticSite.FaqAccordion.constructor: the page's HTML is not part of this model, so the initial state (all items closed, answers at height 0) is assumed. Scroll heights are fixed numbers measured by the browser.
- StaticSite.FallbackFor: the source's `if … else if` chain over the image address is modelled as a first match over an ordered table of (pattern, fallback) pairs, in the same order. The two are the same dispatch, but the equivalence to the literal chain is not proved.
- StaticSite: the image fallbacks replace or hide DOM nodes. The model computes which fallback applies, and the placeholder's size and text, but not the DOM surgery or a missing `.closest('section')`.
- StaticSite: animations, parallax, confetti, throttling, lazy loading, the resize handler and event tracking are timers and presentation, and are left out.
