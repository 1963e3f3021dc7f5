# WPComplete completion tracking, modelled in Dafny

WPComplete is a WordPress plugin that lets site owners put "mark as complete"
buttons on posts and pages. It records, per user, when each button was first
seen and when it was completed, and it groups posts into courses. This project
models the core of that bookkeeping:

- the shape of the stored data: a user's activity map from button id to either
  a scalar stamp or an entry with `first_seen`, `completed` and
  `admin_activity`; the per-post meta with its `course`, `buttons` and
  `redirect`; the legacy `wp_completed` format and its migration;
- button ids (`<post>-<name>`) and their decomposition;
- post and course completion status, percentages and ratios;
- marking and unmarking a button, the button shortcode's first-seen and
  autocomplete bookkeeping, and resetting a course or a whole account;
- course-name splitting, the completed/incomplete post filter, next/previous
  navigation, "next to complete" and "last completed";
- the admin operations: the post-type setting, collecting buttons from
  shortcodes, the metabox clean-up, deleting a button, bulk course assignment,
  resetting a button for every user, deleting a user's data, the admin
  completion toggle and the per-user CSV export;
- the production-host test of the plugin's main file.

The modules follow the program's files:

| module | file | contents |
|---|---|---|
| `Php` | `php.dfy` | the PHP built-ins the core relies on: `empty`, `strtolower`, `trim`, `stripslashes`, `substr`, `explode`/`join`, and keyed arrays with `[]=` (append), `array_search`, `unset`, `array_unique` and loose `==` |
| `Common` | `common.dfy` | `class-wpcomplete-common.php`, plus the `Store` class standing for WordPress user meta and post meta |
| `PublicActivity` | `public_activity.dfy` | the state-changing parts of `class-wpcomplete-public.php` |
| `PublicLists` | `public_lists.dfy` | the list, navigation and formatting parts of `class-wpcomplete-public.php` |
| `AdminButtons` | `admin_buttons.dfy` | post meta maintenance in `class-wpcomplete-admin.php` |
| `AdminUsers` | `admin_users.dfy` | user activity maintenance and export in `class-wpcomplete-admin.php` |
| `Plugin` | `plugin.dfy` | `wpcomplete_is_production` in `wpcomplete.php` |

PHP's lists are keyed arrays, so the `buttons` list of a post is a sequence
of (key, value) slots. This matters in two places. `unset($buttons[false])`
removes key 0 when `array_search` finds nothing. The "has anything changed"
test `!= array(...)` compares keys as well as values. Writing a field into an
activity value that is a scalar rather than an array is a PHP error. The
`0-site` entry is such a scalar: every save sets it to the integer save time.
The model returns failure there, and the operations then save nothing more. Where the plugin stores state, the
model has a method on `Common.Store` that changes the maps and states their
new contents. The pure parts are functions, each with lemmas tying it to an
independent description.

## Model

| member | source | states |
|---|---|---|
| Php.Lower | wpcomplete/includes/class-wpcomplete-common.php:243 | lower-casing keeps the length and maps every character through the ASCII lower-case table |
| Php.LowerIdempotent | wpcomplete/includes/class-wpcomplete-common.php:250 | lower-casing twice is the same as lower-casing once |
| Php.TrimLeft | wpcomplete/includes/class-wpcomplete-common.php:250 | the result is a suffix of the input that starts with a non-blank character (or is empty) |
| Php.TrimRight | wpcomplete/includes/class-wpcomplete-common.php:250 | the result is a prefix of the input that ends with a non-blank character (or is empty) |
| Php.StripSlashes | wpcomplete/includes/class-wpcomplete-common.php:579 | unescaping never lengthens a string and leaves a string without backslashes unchanged |
| Php.TailChars | wpcomplete/wpcomplete.php:82-84 | the tail has the requested length, or the whole string when it is shorter |
| Php.TailCharsIsEndsWith | wpcomplete/wpcomplete.php:82-84 | comparing the last n characters with an n-character suffix is exactly "ends with" |
| Php.FirstIndex | wpcomplete/includes/class-wpcomplete-common.php:421 | the index is the first occurrence of the character, or the length when it is absent |
| Php.Explode | wpcomplete/includes/class-wpcomplete-common.php:71 | splitting gives at least one part, and no part contains the separator |
| Php.ExplodeJoin | wpcomplete/admin/class-wpcomplete-admin.php:421-423 | splitting a joined list of separator-free parts gives the parts back |
| Php.JoinExplode | wpcomplete/includes/class-wpcomplete-common.php:71 | joining the parts of a split gives the original string back |
| Php.ExplodeNoSep | wpcomplete/includes/class-wpcomplete-common.php:422 | a string without the separator splits into itself alone |
| Php.ExplodePrefix | wpcomplete/includes/class-wpcomplete-common.php:422 | splitting at the first separator yields the head and then the split of the rest |
| Php.Values | wpcomplete/admin/class-wpcomplete-admin.php:909 | the values of a keyed array, in order |
| Php.ListOf | wpcomplete/public/class-wpcomplete-public.php:794-795 | a list literal gets keys 0, 1, 2, ... in order |
| Php.NextKey | wpcomplete/public/class-wpcomplete-public.php:795 | the key used by `[]=` is larger than every existing key |
| Php.Push | wpcomplete/public/class-wpcomplete-public.php:795 | appending adds the value at the end under a fresh key and keeps every existing slot |
| Php.Search | wpcomplete/admin/class-wpcomplete-admin.php:2177 | the search fails exactly when the value is absent |
| Php.SearchFirst | wpcomplete/admin/class-wpcomplete-admin.php:2177 | a successful search returns the key of the first slot holding the value |
| Php.RemoveKey | wpcomplete/admin/class-wpcomplete-admin.php:2178-2179 | unsetting a key keeps exactly the slots with other keys |
| Php.UniqueFrom | wpcomplete/admin/class-wpcomplete-admin.php:2324 | every slot kept comes from the input and holds a value not seen before |
| Php.UniqueFromValues | wpcomplete/admin/class-wpcomplete-admin.php:2324 | the values kept are exactly the input values that were not already seen |
| Php.UniqueFromDistinct | wpcomplete/admin/class-wpcomplete-admin.php:2324 | the values kept are pairwise distinct |
| Php.UniqueFromFirst | wpcomplete/admin/class-wpcomplete-admin.php:2324 | the first slot holding each value not yet seen is kept, key included |
| Php.Unique | wpcomplete/admin/class-wpcomplete-admin.php:909 | de-duplication keeps the same set of values, each once, in slots taken from the input, and the slot kept for a value is the one at its first occurrence (its key included) |
| Php.KeepPrefixed | wpcomplete/admin/class-wpcomplete-admin.php:2326-2330 | exactly the slots whose value starts with the prefix are kept |
| Php.KeepPrefixedDistinct | wpcomplete/admin/class-wpcomplete-admin.php:2324-2330 | filtering a list of distinct values keeps them distinct |
| Common.ButtonIdOf | wpcomplete/includes/class-wpcomplete-common.php:407-413 | a button id starts with its post id; it is the post id alone exactly when the name is empty, and `<post>-<name>` otherwise |
| Common.ExtractButtonInfo | wpcomplete/includes/class-wpcomplete-common.php:420-428 | the post part has no dash; an id with a dash is the post part, a dash and the rest; an id without one is a post id with an empty name |
| Common.ButtonIdRoundTrip | wpcomplete/includes/class-wpcomplete-common.php:407-428 | decomposing a built button id returns the post id and the name |
| Common.ExtractButtonInfoRoundTrip | wpcomplete/includes/class-wpcomplete-common.php:407-428 | rebuilding a decomposed id gives the id back |
| Common.GetUserCompleted | wpcomplete/includes/class-wpcomplete-common.php:81-98 | the completed entries are exactly the activity entries with a non-empty `completed` field, with their values unchanged |
| Common.WithSiteStamp | wpcomplete/includes/class-wpcomplete-common.php:203-210 | saving stamps the site key with the current time and changes no other key |
| Common.SiteStampNotCompleted | wpcomplete/includes/class-wpcomplete-common.php:203-210 | the site stamp never counts as a completed button |
| Common.LegacyPairs | wpcomplete/includes/class-wpcomplete-common.php:126-134 | a legacy list of post ids becomes one `true` entry per post id, in order |
| Common.ToMap | wpcomplete/includes/class-wpcomplete-common.php:126-147 | the map has exactly the keys of the pairs |
| Common.Wrap | wpcomplete/includes/class-wpcomplete-common.php:136-145 | wrapping gives an entry whose `completed` field holds the old scalar |
| Common.ListPairs | wpcomplete/includes/class-wpcomplete-common.php:126-134 | the loop builds the legacy pairs |
| Common.AssignAll | wpcomplete/includes/class-wpcomplete-common.php:126-147 | the loop builds the map of the pairs |
| Common.WrapAll | wpcomplete/includes/class-wpcomplete-common.php:136-145 | the loop wraps every value of the map |
| Common.Migrate | wpcomplete/includes/class-wpcomplete-common.php:126-147 | migration computes the migrated activity |
| Common.MigrateListCompletes | wpcomplete/includes/class-wpcomplete-common.php:126-147 | after migrating a legacy list, the completed buttons are exactly the listed post ids |
| Common.ToMapValues | wpcomplete/includes/class-wpcomplete-common.php:126-134 | pairs that all carry one value give a map holding only that value |
| Common.MigrateWrapsScalars | wpcomplete/includes/class-wpcomplete-common.php:136-145 | migrating a legacy map with a scalar first value keeps the keys, turns each scalar into its `completed` stamp and leaves every entry completed |
| Common.CountIn | wpcomplete/includes/class-wpcomplete-common.php:259-274 | the count never exceeds the number of buttons |
| Common.CountInAll | wpcomplete/includes/class-wpcomplete-common.php:491-511 | the count equals the number of buttons exactly when every button is done |
| Common.CountInNone | wpcomplete/includes/class-wpcomplete-common.php:491-511 | the count is zero exactly when no button is done |
| Common.PostCompletionStatus | wpcomplete/includes/class-wpcomplete-common.php:447-484 | the loop computes the post's status |
| Common.PostStatusMeaning | wpcomplete/includes/class-wpcomplete-common.php:447-484 | a post outside the completable posts has no status; a post with buttons is completed, partial or incomplete by how many are done; a post without buttons goes by its own id |
| Common.CourseCompletionStatus | wpcomplete/includes/class-wpcomplete-common.php:491-511 | the loop computes the course's status |
| Common.CourseStatusMeaning | wpcomplete/includes/class-wpcomplete-common.php:491-511 | a course is completed exactly when every button is done, incomplete exactly when none is and it has buttons, and completed when it has none |
| Common.UserHasCompletedCourse | wpcomplete/includes/class-wpcomplete-common.php:771-788 | the loop computes whether every course button is completed |
| Common.CourseStatusImpliesHasCompleted | wpcomplete/includes/class-wpcomplete-common.php:771-788 | a non-empty course with completed status has been completed by the user |
| Common.Percentage | wpcomplete/includes/class-wpcomplete-common.php:259-274 | the percentage lies in 0..100, is 0 for no buttons, and is the count over the total rounded half up |
| Common.PercentageEnds | wpcomplete/includes/class-wpcomplete-common.php:259-274 | nothing done gives 0 and everything done gives 100 |
| Common.Ratio | wpcomplete/public/class-wpcomplete-public.php:382-448 | no ratio for no buttons; otherwise completed over total with completed no larger |
| Common.PercentageOfRatio | wpcomplete/public/class-wpcomplete-public.php:382-448 | the percentage is the ratio rounded half up |
| Common.EnabledPostTypes | wpcomplete/includes/class-wpcomplete-common.php:60-74 | the default is posts and pages; "all" gives exactly the custom types plus posts and pages; any other setting is the comma-split list that joins back to it |
| Common.CourseClass | wpcomplete/includes/class-wpcomplete-common.php:237-251 | a `course` attribute spelling "all" in any case gives `all-courses`; otherwise the class is the trimmed, sanitized, lower-cased course text or attribute, falling back to the site name when the text is empty or the attribute missing or false |
| Common.CourseClassTextOrAttribute | wpcomplete/includes/class-wpcomplete-common.php:237-251 | a course passed as text or as the `course` attribute gives the same class; an empty text and a false attribute give the site name's class |
| Common.CourseClassCaseInsensitive | wpcomplete/includes/class-wpcomplete-common.php:237-251 | course names differing only in ASCII case give the same class |
| Common.ReadBack | wpcomplete/includes/class-wpcomplete-common.php:106-153 | reading a user's activity stores it: a user with no current activity gets the migrated legacy data with a site stamp; nobody else changes |
| Common.Store.SetUserActivity | wpcomplete/includes/class-wpcomplete-common.php:200-219 | the user's activity becomes the data with a fresh site stamp; posts and legacy data are unchanged |
| Common.Store.GetUserActivity | wpcomplete/includes/class-wpcomplete-common.php:106-153 | returns the current activity (migrated when only legacy data exists) and stores it as ReadBack describes |
| Common.Store.UpdatePostMeta | wpcomplete/public/class-wpcomplete-public.php:798 | only the one post's meta changes |
| PublicActivity.Registered | wpcomplete/public/class-wpcomplete-public.php:791-800 | after registration the button is listed for the post; a post without meta gets a one-button list; course and redirect are kept |
| PublicActivity.RegisterButton | wpcomplete/public/class-wpcomplete-public.php:791-800 | the post meta becomes the registered meta and user data is untouched |
| PublicActivity.RegistrationKeepsDistinct | wpcomplete/public/class-wpcomplete-public.php:791-800 | registering keeps the button list free of duplicates and lists the button |
| PublicActivity.RegistrationIdempotent | wpcomplete/public/class-wpcomplete-public.php:791-800 | registering a button twice is the same as registering it once |
| PublicActivity.SetCompleted | wpcomplete/public/class-wpcomplete-public.php:802-806 | marking fails exactly on a scalar entry; otherwise it sets `completed` to the stamp, keeps the rest of the entry and changes no other key |
| PublicActivity.UnsetCompleted | wpcomplete/public/class-wpcomplete-public.php:1045-1049 | unmarking fails exactly on a scalar entry; otherwise it clears `completed`, keeps the rest and changes no other key |
| PublicActivity.SetCompletedDone | wpcomplete/public/class-wpcomplete-public.php:802-806 | marking adds exactly the button to the completed set |
| PublicActivity.UnsetCompletedDone | wpcomplete/public/class-wpcomplete-public.php:1045-1049 | unmarking removes exactly the button from the completed set |
| PublicActivity.UnsetUndoesSet | wpcomplete/public/class-wpcomplete-public.php:1045-1049 | unmarking after marking is the same as unmarking alone |
| PublicActivity.MarkCompleted | wpcomplete/public/class-wpcomplete-public.php:778-807 | the button is registered for its post; success exactly when marking can be applied, and then the activity is saved with the mark; otherwise only the read-back is stored |
| PublicActivity.MarkUncompleted | wpcomplete/public/class-wpcomplete-public.php:1028-1049 | success exactly when unmarking can be applied, then the unmarked activity is saved; otherwise only the read-back is stored; post meta is untouched |
| PublicActivity.StripWrap | wpcomplete/public/class-wpcomplete-public.php:164-173 | a value wrapped in the quote character loses the outer pair, and one followed by a single final line break keeps that line break after the inside; a value not starting with the quote, or ending in anything but the quote or a line break, is unchanged |
| PublicActivity.StripWrapFinalNewline | wpcomplete/public/class-wpcomplete-public.php:167-168 | `$` matches before a final line break, so a wrapped single-line value followed by one keeps the line break and loses the quotes |
| PublicActivity.StripWrapUnwraps | wpcomplete/public/class-wpcomplete-public.php:164-173 | wrapping a single-line value and stripping gives it back |
| PublicActivity.CleanAtts | wpcomplete/public/class-wpcomplete-public.php:164-173 | the clean-up keeps every attribute name and strips each value |
| PublicActivity.FirstSet | wpcomplete/public/class-wpcomplete-public.php:188-199 | the first non-empty attribute of the two wins, else the empty string |
| PublicActivity.ShortcodeButton | wpcomplete/public/class-wpcomplete-public.php:188-236 | the button id belongs to the post the attributes target |
| PublicActivity.Seen | wpcomplete/public/class-wpcomplete-public.php:239-244 | an entry with neither stamp gets `first_seen` set to the current time; an entry with either stamp keeps its `first_seen`; `completed` and the admin log never change |
| PublicActivity.SeenStable | wpcomplete/public/class-wpcomplete-public.php:239-244 | viewing again changes nothing |
| PublicActivity.ViewedEntry | wpcomplete/public/class-wpcomplete-public.php:239-267 | an entry with neither stamp gets `first_seen` = now; under autocomplete an entry not yet completed gets `completed` = now; without autocomplete `completed` is untouched; existing stamps are kept and an entry that needs no save is unchanged |
| PublicActivity.ViewedEntryStable | wpcomplete/public/class-wpcomplete-public.php:239-267 | a second view needs no save and changes nothing |
| PublicActivity.ViewButton | wpcomplete/public/class-wpcomplete-public.php:239-267 | the stored activity and post meta are the viewed entry's (with registration under autocomplete) |
| PublicActivity.ShowButton | wpcomplete/public/class-wpcomplete-public.php:144-322 | guests, unsupported post types and uncompletable posts are refused without changes; otherwise the targeted button is shown, with the view saved, or the call fails on a scalar entry; post meta changes only when autocomplete registers a button not yet completed |
| PublicActivity.ShowFor | wpcomplete/public/class-wpcomplete-public.php:236-267 | the view fails exactly on a scalar entry, and otherwise renders the button and stores the viewed state |
| PublicActivity.CourseIsCompletedNegated | wpcomplete/public/class-wpcomplete-public.php:1358-1361 | `course_is_completed` is true exactly when some course button is not done, so an empty course is never "completed" |
| PublicActivity.ResetCourse | wpcomplete/public/class-wpcomplete-public.php:2563-2585 | resetting a course drops exactly its completed entries and keeps all others unchanged |
| PublicActivity.ResetCourseMeaning | wpcomplete/public/class-wpcomplete-public.php:2563-2585 | after the reset no course button is completed, and the keys are unchanged exactly when none was completed |
| PublicActivity.RemoveCompleted | wpcomplete/public/class-wpcomplete-public.php:2563-2585 | the loop computes the course reset |
| PublicActivity.ResetAccount | wpcomplete/public/class-wpcomplete-public.php:2551-2650 | a course reset stores the activity without the course's completions; a full reset stores an empty activity; posts and legacy data are untouched |
| PublicLists.Chars | wpcomplete/public/class-wpcomplete-public.php:1525-1529 | plain characters become one token each |
| PublicLists.LowerToks | wpcomplete/public/class-wpcomplete-public.php:1526 | lower-casing acts on plain tokens only and keeps the placeholder |
| PublicLists.SplitToks | wpcomplete/public/class-wpcomplete-public.php:1526 | splitting at commas gives at least one part |
| PublicLists.Restore | wpcomplete/public/class-wpcomplete-public.php:1528 | restoring keeps one character per token |
| PublicLists.SplitCourses | wpcomplete/public/class-wpcomplete-public.php:1515-1531 | an exact course name (after unescaping) is kept whole; otherwise there is at least one part |
| PublicLists.DropSpacesChars | wpcomplete/public/class-wpcomplete-public.php:1526 | on plain text, the token-level ", " replacement is `str_replace(", ", ",", ...)` |
| PublicLists.SplitCoursesCommaSpace | wpcomplete/public/class-wpcomplete-public.php:1515-1531 | an unknown name without escapes splits like `explode(',', strtolower(str_replace(", ", ",", $course)))` |
| PublicLists.CommaSpaceToCommaPrefix | wpcomplete/public/class-wpcomplete-public.php:1526 | text without commas passes through the ", " replacement unchanged |
| PublicLists.SplitCoursesSpaceAfterComma | wpcomplete/public/class-wpcomplete-public.php:1515-1531 | "a, b" names the same courses as "a,b" |
| PublicLists.SplitCoursesPlain | wpcomplete/public/class-wpcomplete-public.php:1515-1531 | an unknown name without escapes or ", " splits at commas after lower-casing |
| PublicLists.SplitCoursesEscaped | wpcomplete/public/class-wpcomplete-public.php:1515-1531 | an escaped comma `\,` keeps the two halves in one lower-cased course name holding a comma |
| PublicLists.SplitCoursesLower | wpcomplete/public/class-wpcomplete-public.php:1515-1531 | every split course name is lower case |
| PublicLists.EscapePlain | wpcomplete/public/class-wpcomplete-public.php:1525 | without backslashes, the escape step changes nothing |
| PublicLists.EscapeEscaped | wpcomplete/public/class-wpcomplete-public.php:1525 | the escape step turns `\,` into the placeholder and leaves the rest |
| PublicLists.DropSpacesPlain | wpcomplete/public/class-wpcomplete-public.php:1526 | without ", " nothing is removed |
| PublicLists.DropSpacesEscaped | wpcomplete/public/class-wpcomplete-public.php:1526 | comma-free text around a placeholder loses nothing |
| PublicLists.SplitToksPlain | wpcomplete/public/class-wpcomplete-public.php:1526 | on plain tokens, the split agrees with `explode` |
| PublicLists.SplitToksNoComma | wpcomplete/public/class-wpcomplete-public.php:1526 | without commas there is one part |
| PublicLists.RestoreChars | wpcomplete/public/class-wpcomplete-public.php:1528 | restoring plain tokens gives the text back |
| PublicLists.RestoreEscaped | wpcomplete/public/class-wpcomplete-public.php:1528 | the placeholder is restored as a comma |
| PublicLists.LowerEscaped | wpcomplete/public/class-wpcomplete-public.php:1526 | lower-casing goes through the placeholder |
| PublicLists.SplitToksLower | wpcomplete/public/class-wpcomplete-public.php:1526 | the parts of lower-case tokens are lower case |
| PublicLists.RestoreLower | wpcomplete/public/class-wpcomplete-public.php:1528 | restoring lower-case tokens gives lower-case text |
| PublicLists.Filtered | wpcomplete/public/class-wpcomplete-public.php:1582-1594 | the filter only removes posts |
| PublicLists.FilterByCompletion | wpcomplete/public/class-wpcomplete-public.php:1582-1594 | the loop computes the filter |
| PublicLists.FilteredMeaning | wpcomplete/public/class-wpcomplete-public.php:1582-1594 | `completed="true"` keeps exactly the completed posts, `"false"` exactly the others, and any other value keeps all |
| PublicLists.NextPage | wpcomplete/public/class-wpcomplete-public.php:2075-2086 | the loop finds the next page |
| PublicLists.PreviousPage | wpcomplete/public/class-wpcomplete-public.php:2171-2182 | the loop finds the previous page |
| PublicLists.NextOfIndex | wpcomplete/public/class-wpcomplete-public.php:2075-2086 | the next page follows the first occurrence of the post that has a successor; there is none exactly when no such occurrence exists |
| PublicLists.PrevOfIndex | wpcomplete/public/class-wpcomplete-public.php:2171-2182 | the previous page precedes the first occurrence of the post that has a predecessor; there is none exactly when no such occurrence exists |
| PublicLists.NextPrevInverse | wpcomplete/public/class-wpcomplete-public.php:2075-2182 | on a list without repeats, going back from the next page returns to the post; the last page has no next and the first no previous |
| PublicLists.NextToComplete | wpcomplete/public/class-wpcomplete-public.php:1855-1933 | no pages, the first page that is not completed, or "all completed" when every page is |
| PublicLists.DoneStamp | wpcomplete/public/class-wpcomplete-public.php:1965-1990 | a button has a stamp exactly when it is completed |
| PublicLists.LatestStamp | wpcomplete/public/class-wpcomplete-public.php:1965-1990 | the latest completion stamp among a post's buttons, none exactly when none is completed |
| PublicLists.BestStamp | wpcomplete/public/class-wpcomplete-public.php:1965-1990 | the loop computes the latest stamp |
| PublicLists.Stamps | wpcomplete/public/class-wpcomplete-public.php:1965-1990 | one latest stamp per post in course order |
| PublicLists.FirstMax | wpcomplete/public/class-wpcomplete-public.php:1996-1998 | the earliest entry with the largest stamp; none exactly for an empty list |
| PublicLists.LatestMeaning | wpcomplete/public/class-wpcomplete-public.php:1942-2048 | the last completed post is absent exactly when no post has a stamp; otherwise no stamp is later and it is the first post with that stamp |
| PublicLists.CollectedFirstMax | wpcomplete/public/class-wpcomplete-public.php:1965-1998 | collecting and then picking the maximum gives the last completed post |
| PublicLists.RequestedCourse | wpcomplete/public/class-wpcomplete-public.php:1945-1949 | a non-empty course attribute is used as given |
| PublicLists.PostBest | wpcomplete/public/class-wpcomplete-public.php:1965-1990 | the post's latest stamp within the course |
| PublicLists.CollectCompleted | wpcomplete/public/class-wpcomplete-public.php:1965-1990 | the loop collects every stamped post in order |
| PublicLists.Top | wpcomplete/public/class-wpcomplete-public.php:1996-1998 | the loop picks the first maximum |
| PublicLists.LastCompleted | wpcomplete/public/class-wpcomplete-public.php:1942-2048 | the result is the post LatestMeaning describes, for the requested course |
| PublicLists.OrdinalSuffix | wpcomplete/public/class-wpcomplete-public.php:2396-2404 | the suffix is one of st, nd, rd, th |
| PublicLists.OrdinalSuffixMeaning | wpcomplete/public/class-wpcomplete-public.php:2396-2404 | st, nd, rd for last digits 1, 2, 3 except 11, 12, 13, and th otherwise |
| PublicLists.OrdinalSuffixPeriodic | wpcomplete/public/class-wpcomplete-public.php:2396-2404 | the suffix repeats every hundred |
| AdminButtons.SanitizePostTypes | wpcomplete/admin/class-wpcomplete-admin.php:421-423 | a raw setting is kept; a selection is joined with commas |
| AdminButtons.SanitizedPostTypesReadBack | wpcomplete/admin/class-wpcomplete-admin.php:421-423 | a saved selection of comma-free types reads back as the same list of enabled types |
| AdminButtons.Renamed | wpcomplete/admin/class-wpcomplete-admin.php:2304-2308 | every attribute appears under its renamed key, and the last duplicate wins |
| AdminButtons.CodeButton | wpcomplete/admin/class-wpcomplete-admin.php:2273-2320 | a shortcode that does not parse fails; one without attributes is the post's own button; one is skipped exactly when it names a non-empty `post_id`/`post`; any other button id belongs to the post |
| AdminButtons.RenamedKeys | wpcomplete/admin/class-wpcomplete-admin.php:2304-2308 | a key that no attribute renames to is not set |
| AdminButtons.RenamedLast | wpcomplete/admin/class-wpcomplete-admin.php:2304-2308 | a key holds the value of the last attribute renamed to it |
| AdminButtons.CodeButtonNamed | wpcomplete/admin/class-wpcomplete-admin.php:2304-2320 | for a shortcode aimed at no other post, the last `id`/`name` attribute gives `<post>-<value>` when non-empty and the post's default button when empty |
| AdminButtons.CodeButtonUnnamed | wpcomplete/admin/class-wpcomplete-admin.php:2304-2320 | a shortcode with no `id`, `name`, `post` or `post_id` attribute gives the post's default button |
| AdminButtons.ShortcodeAliases | wpcomplete/admin/class-wpcomplete-admin.php:2304-2320 | `name` gives `<post>-<name>`; a shortcode aimed at another post is skipped; an empty name gives the post id |
| AdminButtons.Collect | wpcomplete/admin/class-wpcomplete-admin.php:2270-2320 | collection fails exactly on a malformed shortcode; otherwise every shortcode's button is collected and nothing foreign is added |
| AdminButtons.Cleaned | wpcomplete/admin/class-wpcomplete-admin.php:2324-2330 | the cleaned list keeps each button of this post exactly once and nothing else |
| AdminButtons.MultipleButtons | wpcomplete/admin/class-wpcomplete-admin.php:2235-2340 | content without `[` leaves the meta alone; failure exactly on a malformed shortcode; only the button list can change; otherwise the cleaned list of found buttons is stored exactly when it is non-empty and not just the default button |
| AdminButtons.MultipleButtonsStores | wpcomplete/admin/class-wpcomplete-admin.php:2333-2335 | content naming a button other than the post's default one gets a stored list holding every button the content names |
| AdminButtons.MultipleButtonsComplete | wpcomplete/admin/class-wpcomplete-admin.php:2235-2340 | whenever the list is rewritten, it holds every button found in the content (MultipleButtonsStores says when it is rewritten) |
| AdminButtons.DropUnprefixed | wpcomplete/admin/class-wpcomplete-admin.php:2326-2330 | the loop keeps exactly this post's buttons |
| AdminButtons.AddMultipleButtonsToMeta | wpcomplete/admin/class-wpcomplete-admin.php:2235-2340 | the shortcode loop and the cleanup compute MultipleButtons, so the found buttons are stored as MultipleButtonsStores states |
| AdminButtons.MetaboxCleanup | wpcomplete/admin/class-wpcomplete-admin.php:910-921 | the post meta is rewritten with the cleaned list exactly when cleaning changes it |
| AdminButtons.CleanedStable | wpcomplete/admin/class-wpcomplete-admin.php:910-921 | cleaning an already cleaned list changes nothing |
| AdminButtons.WithoutButton | wpcomplete/admin/class-wpcomplete-admin.php:2174-2183 | deletion only removes slots, and deleting an absent button removes key 0 |
| AdminButtons.WithoutButtonRemoves | wpcomplete/admin/class-wpcomplete-admin.php:2174-2183 | on a duplicate-free list the button is gone and every other button stays |
| AdminButtons.WithoutAbsentButton | wpcomplete/admin/class-wpcomplete-admin.php:2177-2179 | deleting a missing button removes the slot with key 0 and shortens the list |
| AdminButtons.DeleteButton | wpcomplete/admin/class-wpcomplete-admin.php:2165-2193 | the meta is written exactly when no button is named or the post has a button list, and then holds the list without the button (or an empty list) |
| AdminButtons.BulkStep | wpcomplete/admin/class-wpcomplete-admin.php:1166-1195 | one post's update touches only that post, sets its course, and leaves the posts unchanged when nothing is marked |
| AdminButtons.Bulk | wpcomplete/admin/class-wpcomplete-admin.php:1129-1195 | no more posts are counted than were selected |
| AdminButtons.BulkPost | wpcomplete/admin/class-wpcomplete-admin.php:1166-1195 | the stored posts and count are one BulkStep, and a failure stores nothing |
| AdminButtons.BulkTurn | wpcomplete/admin/class-wpcomplete-admin.php:1166-1195 | one turn of the loop before any failure: the stored posts, count and failure flag are one more step of the bulk fold |
| AdminButtons.BulkAssign | wpcomplete/admin/class-wpcomplete-admin.php:1104-1215 | the stored posts, count and failure are those of Bulk over the selection |
| AdminButtons.BulkStopped | wpcomplete/admin/class-wpcomplete-admin.php:1104-1215 | after a failure the remaining posts change nothing |
| AdminButtons.BulkMeaning | wpcomplete/admin/class-wpcomplete-admin.php:1104-1215 | a run without failure gives every selected post the course and keeps every other post |
| AdminUsers.UsersWith | wpcomplete/admin/class-wpcomplete-admin.php:2212-2221 | the users reset are exactly those whose activity holds the button |
| AdminUsers.ResetUser | wpcomplete/admin/class-wpcomplete-admin.php:2212-2221 | only the one user's activity changes, to the reset value |
| AdminUsers.ResetAllOthers | wpcomplete/admin/class-wpcomplete-admin.php:2212-2221 | users outside the list are untouched |
| AdminUsers.ResetAllMeaning | wpcomplete/admin/class-wpcomplete-admin.php:2212-2221 | every listed user gets the reset value; everybody else is untouched |
| AdminUsers.ResetButton | wpcomplete/admin/class-wpcomplete-admin.php:2201-2227 | the loop returns the affected users and stores the reset for every listed user |
| AdminUsers.ResetButtonClears | wpcomplete/admin/class-wpcomplete-admin.php:2212-2221 | after the reset the button has no entry, and every other entry is kept |
| AdminUsers.AdminToggle | wpcomplete/admin/class-wpcomplete-admin.php:2452-2475 | fails exactly on a scalar entry; otherwise sets or clears `completed`, records the admin action, keeps `first_seen` and changes no other key |
| AdminUsers.AdminToggleIsMark | wpcomplete/admin/class-wpcomplete-admin.php:2452-2475 | apart from the admin record, the toggle is marking or unmarking |
| AdminUsers.AdminToggleDone | wpcomplete/admin/class-wpcomplete-admin.php:2452-2475 | the toggle adds or removes exactly this button from the completed set |
| AdminUsers.AdminUserCompletion | wpcomplete/admin/class-wpcomplete-admin.php:2437-2485 | the button is registered for its post; success exactly when the toggle applies, and then the toggled activity is saved |
| AdminUsers.WithoutButtons | wpcomplete/admin/class-wpcomplete-admin.php:2396-2421 | exactly the course's buttons are removed |
| AdminUsers.RemoveButtons | wpcomplete/admin/class-wpcomplete-admin.php:2396-2421 | the loop removes the course's buttons |
| AdminUsers.WithoutButtonsIncomplete | wpcomplete/admin/class-wpcomplete-admin.php:2396-2421 | afterwards the course is incomplete and other buttons keep their status |
| AdminUsers.DeleteUserData | wpcomplete/admin/class-wpcomplete-admin.php:2384-2429 | with a course only its buttons are removed; without one the user's activity is emptied |
| AdminUsers.ExportButtons | wpcomplete/admin/class-wpcomplete-admin.php:2128-2149 | a post without buttons exports its own id; otherwise its buttons in order |
| AdminUsers.RowFor | wpcomplete/admin/class-wpcomplete-admin.php:2128-2149 | a row reports started exactly for a first-seen stamp and completed exactly for a completion |
| AdminUsers.PostRows | wpcomplete/admin/class-wpcomplete-admin.php:2128-2149 | one row per exported button, in order |
| AdminUsers.ButtonRows | wpcomplete/admin/class-wpcomplete-admin.php:2128-2149 | the loop builds a post's rows |
| AdminUsers.ExportRows | wpcomplete/admin/class-wpcomplete-admin.php:2099-2157 | the loop builds the whole export |
| AdminUsers.ExportSpecMeaning | wpcomplete/admin/class-wpcomplete-admin.php:2099-2157 | a row is exported exactly when it is the row for a listed button of a listed post |
| Plugin.IsProduction | wpcomplete/wpcomplete.php:78-86 | a VIP host is production; localhost and 127.0.0.1 are not |
| Plugin.IsProductionMeaning | wpcomplete/wpcomplete.php:78-86 | a host is production exactly when it is not localhost or 127.0.0.1 and does not end in .dev, .test or .local |
| Plugin.DevelopmentSuffix | wpcomplete/wpcomplete.php:82-84 | every .dev, .test or .local host is a development host |

## Left out

- Caching: `wp_cache_get`/`wp_cache_set`, the prefetch paths and the "saved" flags are not modelled. The model reads and writes the stored meta directly.
- Loose PHP comparisons between numeric strings and integers (`$p_id == $post_id`, `in_array`) are modelled as string equality.
- `intval`, `get_post_type`, `sanitize_title` and `get_bloginfo('name')` are parameters of the operations that use them.
- PublicLists.SplitCourses: a course name that already contains the placeholder text `**wpcomplete**` is not modelled. The escape is a distinct token, so such a name splits differently here.
- Common.Percentage: PHP's floating-point `round` is stated as exact rounding half up on integers.
- PublicLists.LatestStamp: the order of completion stamps is an abstract rank. Stamps that are `true` or not dates rank lowest.
- `get_course_buttons`, `get_buttons`, `get_course_names`, `get_completable_posts` and `post_course` are inputs. The lists they would compute from WordPress queries are passed in.
- HTML rendering, JSON responses, AJAX handlers, nonces, redirects, licensing, Zapier webhooks, `do_action` and `apply_filters` hooks, and the `hidden`/async button variants are not modelled. Filters are taken to return their input unchanged.
- `html_entity_decode`/`htmlentities` on course names are taken as the identity.
- AdminButtons.CodeButton: the shortcode regular expression and the `SimpleXMLElement` attribute parsing (including the retry with quotes added) are abstracted. Each shortcode comes as a parsed value: bare, with attributes, or malformed.
- `is_array` guards on decoded JSON are not modelled. Decoded values always have the modelled shape.
- JSON objects with duplicate keys are not modelled.
- Legacy data stored as a map is kept as it is when its first value is already an array. When the first value is a scalar, every value is wrapped under `completed`. Neither case looks at the other values, so a mixed map keeps its scalars unwrapped in the first case.
- AdminButtons.BulkAssign: the post-type gate and the parsing of the bulk action string are not modelled. The course and the selected post ids are parameters.
- AdminUsers.ResetButton: requires a list of distinct users. WordPress user queries never return a user twice.
- Dates (`date('Y-m-d H:i:s')`, `time()`) are a `now: nat` parameter.
- Peer-pressure statistics (user counts and percentages) are not modelled, apart from the ordinal suffix they use.
- PublicActivity.SetCompleted: a stored top-level `false` is treated like every other scalar, as a failed write. PHP turns `false` into an array and carries on. The plugin itself never stores such a value.
- PublicActivity.UnsetCompleted: a stored top-level `false` is treated as a failed write, like the other scalars.
- AdminUsers.AdminToggle: a stored top-level `false` is treated as a failed write, like the other scalars.
